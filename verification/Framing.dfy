/** Length-prefixed frames over a pipe that moves any part of a request at a time. */
module Framing {
  import opened JsonGrammar
  import opened JsonParser
  import opened JsonFacts

  /** What one attempt to read or write does: move at most so many bytes (none means the pipe is closed), be
      interrupted, or fail. */
  datatype Attempt = Moves(most: nat) | Interrupted | Broken

  predicate Clear(attempts: seq<Attempt>) {
    forall i :: 0 <= i < |attempts| ==> attempts[i] != Broken && attempts[i] != Moves(0)
  }

  function Turns(attempts: seq<Attempt>): nat {
    if attempts == [] then 0 else (if attempts[0].Moves? then 1 else 0) + Turns(attempts[1..])
  }

  /** Enough working attempts for so many bytes, were each to move only one. */
  predicate Suffice(attempts: seq<Attempt>, n: nat) {
    Clear(attempts) && Turns(attempts) >= n
  }

  lemma OneTurn(attempts: seq<Attempt>)
    ensures attempts == [] ==> Turns(attempts) == 0
    ensures attempts != [] ==> Turns(attempts) == (if attempts[0].Moves? then 1 else 0) + Turns(attempts[1..])
    ensures attempts != [] && Clear(attempts) ==>
              attempts[0] != Broken && attempts[0] != Moves(0) && Clear(attempts[1..])
  {
  }

  // ---- the four length bytes, least significant first ----

  function LengthBytes(n: nat): (bytes: seq<Byte>)
    ensures |bytes| == 4
  {
    [n % 256, n / 256 % 256, n / 256 / 256 % 256, n / 256 / 256 / 256 % 256]
  }

  function LengthOf(bytes: seq<Byte>): (n: nat)
    requires |bytes| == 4
    ensures n < 0x1_0000_0000
  {
    Weigh(bytes[0], bytes[1], bytes[2], bytes[3])
  }

  function Weigh(a: int, b: int, c: int, d: int): int {
    a + 256 * b + 65536 * c + 16777216 * d
  }

  /** The length survives the trip, up to the four bytes it has. */
  lemma LengthRoundTrip(n: nat)
    ensures LengthOf(LengthBytes(n)) == n % 0x1_0000_0000
  {
    var a, b, c := n / 256, n / 256 / 256, n / 256 / 256 / 256;
    var top, low := c / 256, Weigh(n % 256, a % 256, b % 256, c % 256);
    assert n == 0x1_0000_0000 * top + low;
    Remainder(n, top, low);
  }

  lemma Remainder(n: nat, top: nat, low: nat)
    requires low < 0x1_0000_0000 && n == 0x1_0000_0000 * top + low
    ensures n % 0x1_0000_0000 == low
  {
  }

  lemma BytesRoundTrip(bytes: seq<Byte>)
    requires |bytes| == 4
    ensures LengthBytes(LengthOf(bytes)) == bytes
  {
    Digits(bytes[0], bytes[1], bytes[2], bytes[3]);
  }

  lemma Digits(a: nat, b: nat, c: nat, d: nat)
    requires a < 256 && b < 256 && c < 256 && d < 256
    ensures var n := Weigh(a, b, c, d);
            n % 256 == a && n / 256 % 256 == b && n / 256 / 256 % 256 == c && n / 256 / 256 / 256 % 256 == d
  {
    var n := Weigh(a, b, c, d);
    assert n == 256 * (b + 256 * (c + 256 * d)) + a;
    assert n / 256 == b + 256 * (c + 256 * d);
    assert n / 256 / 256 == c + 256 * d;
    assert n / 256 / 256 / 256 == d;
  }

  // ---- frames and streams of frames ----

  function Frame(text: seq<Byte>): seq<Byte> {
    LengthBytes(|text|) + text
  }

  function Stream(texts: seq<seq<Byte>>): seq<Byte> {
    if texts == [] then [] else Frame(texts[0]) + Stream(texts[1..])
  }

  /** A stream begins with at most one frame. */
  lemma FrameUnique(a: seq<Byte>, b: seq<Byte>, x: seq<Byte>, y: seq<Byte>)
    requires |a| < 0x1_0000_0000 && |b| < 0x1_0000_0000 && Frame(a) + x == Frame(b) + y
    ensures a == b && x == y
  {
    assert (Frame(a) + x)[..4] == LengthBytes(|a|) && (Frame(b) + y)[..4] == LengthBytes(|b|);
    LengthRoundTrip(|a|);
    LengthRoundTrip(|b|);
    var n := 4 + |a|;
    assert (Frame(a) + x)[4..n] == a && (Frame(b) + y)[4..n] == b;
    assert (Frame(a) + x)[n..] == x && (Frame(b) + y)[n..] == y;
  }

  /** Whatever frames are read off a stream are the frames that were written to it, in order. */
  lemma {:induction false} StreamUnique(written: seq<seq<Byte>>, read: seq<seq<Byte>>, x: seq<Byte>, y: seq<Byte>)
    requires Stream(written) + x == Stream(read) + y && |read| <= |written|
    requires forall t :: t in written || t in read ==> |t| < 0x1_0000_0000
    ensures read == written[..|read|] && y == Stream(written[|read|..]) + x
  {
    hide Frame;
    if read == [] {
      assert written[|read|..] == written;
    } else {
      FirstOfStream(written, x);
      FirstOfStream(read, y);
      FrameUnique(written[0], read[0], Stream(written[1..]) + x, Stream(read[1..]) + y);
      StreamUnique(written[1..], read[1..], x, y);
      var n := |read|;
      assert written[1..][n - 1..] == written[n..] && written[1..][..n - 1] == written[1..n];
      assert read == [read[0]] + read[1..] && written[..n] == [written[0]] + written[1..n];
    }
  }

  lemma FirstOfStream(texts: seq<seq<Byte>>, x: seq<Byte>)
    requires texts != []
    ensures Stream(texts) + x == Frame(texts[0]) + (Stream(texts[1..]) + x)
  {
    hide Frame;
  }

  lemma {:induction false} StreamMore(texts: seq<seq<Byte>>, text: seq<Byte>)
    ensures Stream(texts + [text]) == Stream(texts) + Frame(text)
  {
    if texts == [] {
      assert texts + [text] == [text];
    } else {
      assert (texts + [text])[1..] == texts[1..] + [text];
      StreamMore(texts[1..], text);
    }
  }

  class Connection {
    const parser: Parser
    /** What the host has been sent. */
    var sent: seq<Byte>
    /** What the host writes and has not been read, now or later. */
    var due: seq<Byte>
    /** What the coming attempts do, up to the deadline. */
    var attempts: seq<Attempt>

    constructor (due: seq<Byte>, attempts: seq<Attempt>)
      ensures sent == [] && this.due == due && this.attempts == attempts && fresh(parser)
      ensures fresh(parser.frame) && fresh(parser.tokens) && Ready()
    {
      parser := new Parser();
      sent, this.due, this.attempts := [], due, attempts;
    }

    ghost predicate Ready()
      reads this
    {
      parser.frame.Length == FRAME_SIZE + PADDING && parser.tokens.Length == TOKEN_COUNT
    }

    /** Writes the buffer in as many attempts as it takes. */
    method Write(buffer: array<Byte>) returns (ok: bool)
      modifies this
      ensures due == old(due) && old(sent) <= sent && sent[|old(sent)|..] <= buffer[..]
      ensures ok <==> sent == old(sent) + buffer[..]
      ensures Clear(old(attempts)) && Turns(old(attempts)) >= buffer.Length ==>
                ok && Clear(attempts) && Turns(attempts) + buffer.Length >= Turns(old(attempts))
    {
      hide Turns, Clear;
      var done: nat := 0;
      while done < buffer.Length
        invariant done <= buffer.Length && (Clear(old(attempts)) ==> Clear(attempts))
        invariant due == old(due) && sent == old(sent) + buffer[..done]
        invariant Clear(old(attempts)) ==> Turns(attempts) + done >= Turns(old(attempts))
        decreases |attempts|
      {
        OneTurn(attempts);
        if attempts == [] {
          return false;
        }
        var attempt := attempts[0];
        attempts := attempts[1..];
        match attempt
        case Moves(most) =>
          if most == 0 {
            return false;
          }
          var n := Least(most, buffer.Length - done);
          sent := sent + buffer[done..done + n];
          assert buffer[..done + n] == buffer[..done] + buffer[done..done + n];
          done := done + n;
        case Interrupted =>
        case Broken =>
          return false;
      }
      assert buffer[..done] == buffer[..];
      ok := true;
    }

    /** Reads `size` bytes in as many attempts as it takes; whatever was taken is in the buffer, and nothing is lost. */
    method Read(buffer: array<Byte>, size: nat) returns (ok: bool)
      requires size <= buffer.Length
      modifies this, buffer
      ensures sent == old(sent) && |due| <= |old(due)| && |old(due)| - |due| <= size
      ensures old(due) == buffer[..|old(due)| - |due|] + due
      ensures buffer[|old(due)| - |due|..] == old(buffer[..])[|old(due)| - |due|..]
      ensures ok <==> |old(due)| - |due| == size
      ensures Clear(old(attempts)) && Turns(old(attempts)) >= size && |old(due)| >= size ==>
                ok && Clear(attempts) && Turns(attempts) + size >= Turns(old(attempts))
    {
      hide Turns, Clear;
      ghost var before, stream := buffer[..], due;
      var done: nat := 0;
      while done < size
        invariant done <= size && (Clear(old(attempts)) ==> Clear(attempts))
        invariant done <= |stream| && due == stream[done..] && sent == old(sent)
        invariant buffer[..done] == stream[..done] && buffer[done..] == before[done..]
        invariant Clear(old(attempts)) ==> Turns(attempts) + done >= Turns(old(attempts))
        decreases |attempts|
      {
        OneTurn(attempts);
        if attempts == [] {
          return false;
        }
        var attempt := attempts[0];
        attempts := attempts[1..];
        match attempt
        case Moves(most) =>
          var n := Least(most, Least(size - done, |due|));
          if n == 0 {
            return false;
          }
          Deliver(buffer, done, n, before, stream);
          done := done + n;
        case Interrupted =>
        case Broken =>
          return false;
      }
      ok := true;
    }

    /** What one read system call does. */
    method Deliver(buffer: array<Byte>, done: nat, n: nat, ghost before: seq<Byte>, ghost stream: seq<Byte>)
      requires done + n <= buffer.Length == |before| && done + n <= |stream| && due == stream[done..]
      requires buffer[..done] == stream[..done] && buffer[done..] == before[done..]
      modifies this`due, buffer
      ensures due == stream[done + n..]
      ensures buffer[..done + n] == stream[..done + n] && buffer[done + n..] == before[done + n..]
    {
      forall i | 0 <= i < n {
        buffer[done + i] := due[i];
      }
      due := due[n..];
      assert forall i :: 0 <= i < done ==> buffer[i] == stream[..done][i];
      assert forall i :: done + n <= i < buffer.Length ==> buffer[i] == before[done..][i - done];
    }

    /** Sends the text whole, or no more than a part of its frame. */
    method SendFrame(text: array<Byte>) returns (ok: bool)
      requires text.Length < 0x1_0000_0000
      modifies this
      ensures due == old(due) && old(sent) <= sent && sent[|old(sent)|..] <= Frame(text[..])
      ensures ok <==> sent == old(sent) + Frame(text[..])
      ensures Clear(old(attempts)) && Turns(old(attempts)) >= 4 + text.Length ==>
                ok && Clear(attempts) && Turns(attempts) + 4 + text.Length >= Turns(old(attempts))
    {
      var length := new Byte[4];
      var bytes := LengthBytes(text.Length);
      length[0], length[1], length[2], length[3] := bytes[0], bytes[1], bytes[2], bytes[3];
      assert length[..] == bytes;
      ok := Write(length);
      if ok {
        ok := Write(text);
      }
    }

    /** Accepts exactly a frame that holds a document, and takes no byte beyond it. */
    method ReadFrame() returns (ok: bool, ghost text: seq<Byte>)
      requires Ready()
      modifies this, parser, parser.frame, parser.tokens
      ensures sent == old(sent) && Ready()
      ensures |due| <= |old(due)| && due == old(due)[|old(due)| - |due|..]
      ensures ok ==> 0 < |text| < FRAME_SIZE && old(due) == Frame(text) + due
      ensures ok ==> parser.Valid() && parser.content == text && exists t :: IsDocument(t, text)
      ensures Suffice(old(attempts), Least(|old(due)|, FRAME_SIZE + 3)) && !ok ==> !Sound(old(due))
      ensures Clear(old(attempts)) && Turns(old(attempts)) >= |old(due)| && ok ==>
                Clear(attempts) && Turns(attempts) >= |due|
    {
      hide Turns, Clear, LengthBytes, LengthOf, IsDocument, Sound, Frame;
      text := [];
      ghost var start := due;
      var length := new Byte[4];
      ok := Read(length, 4);
      if !ok {
        TooShort(start);
        return;
      }
      ghost var four := length[..];
      assert four == length[..4];
      var n := LengthOf(length[..]);
      SoundStart(start, four, due);
      if n == 0 || n >= FRAME_SIZE {
        return false, text;
      }
      ghost var rest := due;
      ok := Read(parser.frame, n);
      if !ok {
        return;
      }
      text := parser.frame[..n];
      assert rest == text + due && rest[..n] == text;
      FrameOf(start, four, text, due);
      var parsed := parser.ParseFrame(n);
      ok := parsed == 0;
    }
  }

  // ---- a list of texts, sent and received ----

  /** Texts that the receiver takes. */
  ghost predicate Receivable(texts: seq<seq<Byte>>) {
    forall i :: 0 <= i < |texts| ==> 0 < |texts[i]| < FRAME_SIZE && exists t :: IsDocument(t, texts[i])
  }

  lemma StreamFrom(texts: seq<seq<Byte>>, i: nat)
    requires i <= |texts|
    ensures i < |texts| ==> Stream(texts[i..]) == Frame(texts[i]) + Stream(texts[i + 1..])
    ensures i == |texts| ==> Stream(texts[i..]) == []
  {
    hide Frame;
    if i < |texts| {
      assert texts[i..][1..] == texts[i + 1..];
    }
  }

  /** Sends the texts one after the other. */
  method SendAll(connection: Connection, texts: seq<seq<Byte>>) returns (ok: bool)
    requires forall i :: 0 <= i < |texts| ==> |texts[i]| < 0x1_0000_0000
    modifies connection
    ensures connection.due == old(connection.due)
    ensures ok ==> connection.sent == old(connection.sent) + Stream(texts)
    ensures Clear(old(connection.attempts)) && Turns(old(connection.attempts)) >= |Stream(texts)| ==> ok
  {
    hide Stream, Frame, Turns, Clear;
    ghost var healthy := Clear(connection.attempts) && Turns(connection.attempts) >= |Stream(texts)|;
    assert texts[0..] == texts;
    for i := 0 to |texts|
      invariant connection.due == old(connection.due)
      invariant connection.sent + Stream(texts[i..]) == old(connection.sent) + Stream(texts)
      invariant healthy ==> Clear(connection.attempts) && Turns(connection.attempts) >= |Stream(texts[i..])|
    {
      StreamFrom(texts, i);
      FrameLength(texts[i]);
      var text := new Byte[|texts[i]|](k requires 0 <= k < |texts[i]| => texts[i][k]);
      assert text[..] == texts[i];
      ghost var before := connection.sent;
      ok := connection.SendFrame(text);
      if !ok {
        return;
      }
      Regroup(before, Frame(texts[i]), Stream(texts[i + 1..]));
      assert connection.sent + Stream(texts[i + 1..]) == before + Stream(texts[i..]);
    }
    StreamFrom(texts, |texts|);
    ok := true;
  }

  lemma Regroup(a: seq<Byte>, b: seq<Byte>, c: seq<Byte>)
    ensures a + b + c == a + (b + c)
  {
  }

  lemma FrameLength(text: seq<Byte>)
    ensures |Frame(text)| == 4 + |text|
  {
  }

  /** Reads that many frames. */
  method ReceiveAll(connection: Connection, count: nat) returns (ok: bool, ghost texts: seq<seq<Byte>>)
    requires connection.Ready()
    modifies connection, connection.parser, connection.parser.frame, connection.parser.tokens
    ensures connection.Ready()
    ensures ok ==> |texts| == count && Receivable(texts) && old(connection.due) == Stream(texts) + connection.due
    ensures forall expected | Receivable(expected) && |expected| == count && Stream(expected) <= old(connection.due) ::
              Clear(old(connection.attempts)) && Turns(old(connection.attempts)) >= |old(connection.due)| ==> ok
  {
    hide Stream, Frame, Turns, Clear, IsDocument, Sound;
    texts := [];
    ghost var stream := connection.due;
    ghost var healthy := Clear(connection.attempts) && Turns(connection.attempts) >= |stream|;
    StreamFrom([], 0);
    for i := 0 to count
      invariant connection.Ready() && |texts| == i && Receivable(texts) && stream == Stream(texts) + connection.due
      invariant healthy ==> Clear(connection.attempts) && Turns(connection.attempts) >= |connection.due|
    {
      ghost var before := connection.due;
      ghost var text;
      ok, text := connection.ReadFrame();
      if !ok {
        if healthy {
          forall expected | Receivable(expected) && |expected| == count
            ensures !(Stream(expected) <= stream)
          {
            if Stream(expected) <= stream {
              StillSound(expected, texts, stream, before);
            }
          }
        }
        return;
      }
      StreamMore(texts, text);
      Regroup(Stream(texts), Frame(text), connection.due);
      texts := texts + [text];
    }
    ok := true;
  }

  /** After as many frames as were read there is another sound one, if more were expected. */
  lemma StillSound(expected: seq<seq<Byte>>, texts: seq<seq<Byte>>, stream: seq<Byte>, rest: seq<Byte>)
    requires Receivable(expected) && Receivable(texts) && |texts| < |expected|
    requires Stream(expected) <= stream && stream == Stream(texts) + rest
    ensures Sound(rest)
  {
    hide Frame, Stream, IsDocument;
    var n := |texts|;
    var x := stream[|Stream(expected)|..];
    assert stream == Stream(expected) + x;
    StreamUnique(expected, texts, x, rest);
    StreamFrom(expected, n);
    Regroup(Frame(expected[n]), Stream(expected[n + 1..]), x);
    BeginsSound(expected[n], Stream(expected[n + 1..]) + x);
  }

  lemma BeginsSound(text: seq<Byte>, more: seq<Byte>)
    requires 0 < |text| < FRAME_SIZE && exists t :: IsDocument(t, text)
    ensures Sound(Frame(text) + more)
  {
    hide Frame, IsDocument;
    var t :| IsDocument(t, text);
    assert Frame(text) <= Frame(text) + more;
  }

  /** What is sent over one connection is received over the other: the same texts, in order, however reads and
      writes are split. */
  method Exchange(sender: Connection, receiver: Connection, texts: seq<seq<Byte>>)
    returns (ok: bool, ghost received: seq<seq<Byte>>)
    requires Receivable(texts) && receiver.Ready() && sender != receiver && sender.sent == [] && receiver.due == []
    modifies sender, receiver, receiver.parser, receiver.parser.frame, receiver.parser.tokens
    ensures ok ==> received == texts && receiver.due == []
    ensures Suffice(old(sender.attempts), |Stream(texts)|) && Suffice(old(receiver.attempts), |Stream(texts)|) ==> ok
  {
    hide Stream, Turns, Clear;
    received := [];
    ok := SendAll(sender, texts);
    if !ok {
      return;
    }
    receiver.due := sender.sent;
    assert receiver.due == Stream(texts) && Stream(texts) <= receiver.due;
    ok, received := ReceiveAll(receiver, |texts|);
    if ok {
      assert Stream(texts) + [] == Stream(received) + receiver.due;
      StreamUnique(texts, received, [], receiver.due);
      StreamFrom(texts, |texts|);
      assert texts[..|texts|] == texts;
    }
  }

  /** The stream begins with a frame of allowed size that holds a document. */
  ghost predicate Sound(due: seq<Byte>) {
    exists text, t :: 0 < |text| < FRAME_SIZE && Frame(text) <= due && IsDocument(t, text)
  }

  lemma FrameOf(due: seq<Byte>, four: seq<Byte>, text: seq<Byte>, rest: seq<Byte>)
    requires |four| == 4 && due == four + (text + rest) && LengthOf(four) == |text|
    ensures due == Frame(text) + rest
  {
    BytesRoundTrip(four);
  }

  lemma TooShort(due: seq<Byte>)
    ensures Sound(due) ==> |due| >= 4
  {
  }

  /** What a sound stream says about its first four bytes and what follows. */
  lemma SoundStart(due: seq<Byte>, four: seq<Byte>, rest: seq<Byte>)
    requires |four| == 4 && due == four + rest
    ensures var n := LengthOf(four);
            Sound(due) <==> 0 < n < FRAME_SIZE && n <= |rest| && exists t :: IsDocument(t, rest[..n])
  {
    hide IsDocument, LengthOf, LengthBytes;
    var n := LengthOf(four);
    if Sound(due) {
      var text, t :| 0 < |text| < FRAME_SIZE && Frame(text) <= due && IsDocument(t, text);
      FirstFrame(due, four, rest, text);
    }
    if 0 < n < FRAME_SIZE && n <= |rest| && exists t :: IsDocument(t, rest[..n]) {
      var text := rest[..n];
      var t :| IsDocument(t, text);
      FrameOf(due, four, text, rest[n..]);
    }
  }

  lemma FirstFrame(due: seq<Byte>, four: seq<Byte>, rest: seq<Byte>, text: seq<Byte>)
    requires |four| == 4 && due == four + rest && Frame(text) <= due && |text| < FRAME_SIZE
    ensures LengthOf(four) == |text| <= |rest| && rest[..|text|] == text
  {
    hide LengthOf, LengthBytes;
    assert four == due[..4] == Frame(text)[..4] == LengthBytes(|text|);
    LengthRoundTrip(|text|);
    assert rest == due[4..] && text == Frame(text)[4..];
    assert rest[..|text|] == due[4..4 + |text|] == Frame(text)[4..];
  }

  function Least(a: nat, b: nat): nat {
    if a < b then a else b
  }
}
