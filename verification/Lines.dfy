/** Newline framing over a bounded buffer: whatever follows a line stays pending for the next one. */
module Lines {
  import opened Options
  import opened JsonGrammar
  import opened Framing

  const NEWLINE: Byte := 10
  const CAPACITY: nat := 65536

  /** What a response loop does with one line. */
  datatype Judgement = Notice | Answer | Refused

  function Joined(lines: seq<seq<Byte>>): seq<Byte> {
    if lines == [] then [] else Joined(lines[..|lines| - 1]) + lines[|lines| - 1] + [NEWLINE]
  }

  ghost predicate AreLines(lines: seq<seq<Byte>>) {
    forall i :: 0 <= i < |lines| ==> NEWLINE !in lines[i]
  }

  /** A stream splits into lines in one way. */
  lemma FirstLineUnique(a: seq<Byte>, b: seq<Byte>, x: seq<Byte>, y: seq<Byte>)
    requires NEWLINE !in a && NEWLINE !in b && a + [NEWLINE] + x == b + [NEWLINE] + y
    ensures a == b && x == y
  {
    var s := a + [NEWLINE] + x;
    assert forall i :: 0 <= i < |a| ==> s[i] == a[i] && a[i] in a;
    assert forall i :: 0 <= i < |b| ==> s[i] == b[i] && b[i] in b;
    assert s[|a|] == NEWLINE && s[|b|] == NEWLINE;
    assert a == s[..|a|] && b == s[..|b|] && x == s[|a| + 1..] && y == s[|b| + 1..];
  }

  class LineReader {
    const pending: array<Byte>
    const frame: array<Byte>
    var size: nat
    /** What the server writes and has not been read, now or later. */
    var due: seq<Byte>
    var attempts: seq<Attempt>
    /** Whether a request may still be answered: the judgement of a line, made by the parser and the expected id. */
    const judge: seq<Byte> -> Judgement

    constructor (due: seq<Byte>, attempts: seq<Attempt>, judge: seq<Byte> -> Judgement)
      ensures Valid() && fresh(pending) && fresh(frame) && Unread() == due
      ensures this.attempts == attempts && this.judge == judge
    {
      pending, frame := new Byte[CAPACITY](i => 0), new Byte[CAPACITY](i => 0);
      size, this.due, this.attempts, this.judge := 0, due, attempts, judge;
    }

    ghost predicate Valid()
      reads this
    {
      pending.Length == CAPACITY && frame.Length == CAPACITY && pending != frame && size < CAPACITY
    }

    /** Everything still to be handed out as lines. */
    ghost function Unread(): seq<Byte>
      reads this, pending
      requires Valid()
    {
      pending[..size] + due
    }

    /** Where the first newline among the pending bytes is, if there is one. */
    method FindNewline() returns (at: Option<nat>)
      requires Valid()
      ensures at.Some? ==> at.value < size && pending[at.value] == NEWLINE && NEWLINE !in pending[..at.value]
      ensures at.None? ==> NEWLINE !in pending[..size]
    {
      for i := 0 to size
        invariant NEWLINE !in pending[..i]
      {
        if pending[i] == NEWLINE {
          return Some(i);
        }
      }
      at := None;
    }

    /** Hands out the line that ends at `length`, and shifts what follows it to the front. */
    method TakeLine(length: nat) returns (line: seq<Byte>)
      requires Valid() && length < size && pending[length] == NEWLINE
      modifies this`size, pending, frame
      ensures Valid() && line == old(pending[..length])
      ensures frame[..length] == line && frame[length] == 0
      ensures old(Unread()) == line + [NEWLINE] + Unread()
    {
      ghost var before := pending[..size];
      forall i | 0 <= i < length {
        frame[i] := pending[i];
      }
      frame[length] := 0;
      line := pending[..length];
      size := size - (length + 1);
      forall i | 0 <= i < size {
        pending[i] := pending[length + 1 + i];
      }
      assert frame[..length] == line;
      assert before == line + [NEWLINE] + pending[..size];
    }

    /** Reads until there is a line, and hands it out. No byte is lost, added or moved, whatever the fragmentation; it
        fails only for an overlong line, the deadline, the end of the stream or a failed read. */
    method NextLine() returns (line: Option<seq<Byte>>)
      requires Valid()
      modifies this`size, this`due, this`attempts, pending, frame
      ensures Valid() && |attempts| <= |old(attempts)|
      ensures line.Some? ==> NEWLINE !in line.value && |line.value| < CAPACITY - 1
      ensures line.Some? ==> old(Unread()) == line.value + [NEWLINE] + Unread()
      ensures line.Some? ==> frame[..|line.value|] == line.value && frame[|line.value|] == 0
      ensures line.None? ==> Unread() == old(Unread()) && NEWLINE !in pending[..size]
      ensures Clear(old(attempts)) ==> Clear(attempts)
      ensures Clear(old(attempts)) && Turns(old(attempts)) > |old(due)| && line.None? ==>
                NEWLINE !in old(Unread())[..Least(|old(Unread())|, CAPACITY - 1)]
      ensures Clear(old(attempts)) ==> Turns(attempts) + |old(due)| >= Turns(old(attempts)) + |due| || line.None?
    {
      hide Turns, Clear;
      ghost var stream := Unread();
      while true
        invariant Valid() && Unread() == stream && |due| <= |old(due)| && |attempts| <= |old(attempts)|
        invariant Clear(old(attempts)) ==>
                    Clear(attempts) && Turns(attempts) + |old(due)| >= Turns(old(attempts)) + |due|
        decreases |attempts|
      {
        var newline := FindNewline();
        if newline.Some? {
          var taken := TakeLine(newline.value);
          return Some(taken);
        }
        OneTurn(attempts);
        if size == CAPACITY - 1 || attempts == [] {
          assert size == CAPACITY - 1 ==> stream[..CAPACITY - 1] == pending[..size];
          return None;
        }
        var attempt := attempts[0];
        attempts := attempts[1..];
        match attempt
        case Moves(most) =>
          var n := Least(most, Least(CAPACITY - 1 - size, |due|));
          if n == 0 {
            assert due == [] ==> stream == pending[..size];
            return None;
          }
          Fill(n);
        case Interrupted =>
        case Broken =>
          return None;
      }
    }

    method Fill(n: nat)
      requires Valid() && n <= |due| && size + n < CAPACITY
      modifies this`size, this`due, pending
      ensures Valid() && Unread() == old(Unread()) && due == old(due)[n..]
    {
      ghost var before := pending[..size];
      forall i | 0 <= i < n {
        pending[size + i] := due[i];
      }
      assert pending[..size] == before && pending[size..size + n] == due[..n];
      assert pending[..size + n] == pending[..size] + pending[size..size + n];
      size, due := size + n, due[n..];
    }

    /** Skips notices and ends at the first line that is not one. The lines handed out and what is still unread are the
        stream, byte for byte. */
    method Response() returns (ok: bool, ghost notices: seq<seq<Byte>>, ghost last: Option<seq<Byte>>)
      requires Valid()
      modifies this`size, this`due, this`attempts, pending, frame
      ensures Valid() && AreLines(notices) && forall i :: 0 <= i < |notices| ==> judge(notices[i]) == Notice
      ensures last.Some? ==> NEWLINE !in last.value && judge(last.value) != Notice
      ensures last.Some? ==> old(Unread()) == Joined(notices) + last.value + [NEWLINE] + Unread()
      ensures last.None? ==> old(Unread()) == Joined(notices) + Unread() && NEWLINE !in pending[..size]
      ensures ok <==> last.Some? && judge(last.value) == Answer
      ensures Clear(old(attempts)) && Turns(old(attempts)) > |old(due)| && last.None? ==>
                NEWLINE !in Unread()[..Least(|Unread()|, CAPACITY - 1)]
    {
      hide Turns, Clear;
      notices, last := [], None;
      while true
        invariant Valid() && AreLines(notices)
        invariant forall i :: 0 <= i < |notices| ==> judge(notices[i]) == Notice
        invariant old(Unread()) == Joined(notices) + Unread()
        invariant Clear(old(attempts)) && Turns(old(attempts)) > |old(due)| ==>
                    Clear(attempts) && Turns(attempts) > |due|
        decreases |Unread()|
      {
        ghost var before := Unread();
        var line := NextLine();
        if line.None? {
          return false, notices, None;
        }
        ghost var text := line.value;
        assert before == text + [NEWLINE] + Unread();
        assert Joined(notices) + before == Joined(notices) + text + [NEWLINE] + Unread();
        if judge(line.value) != Notice {
          last := line;
          return judge(line.value) == Answer, notices, last;
        }
        assert (notices + [text])[..|notices|] == notices;
        notices := notices + [text];
      }
    }
  }
}
