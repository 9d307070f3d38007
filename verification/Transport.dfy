/**
  Line framing over a byte stream (src/stratum/transport.cpp, send_line and recv_line).
  The network is a list of fragments, whatever sizes the reads return.
 */
module Transport {
  import opened Options

  const MAX_LINE: nat := 65536
  const READ_SIZE: nat := 4096

  /** Place of the first newline, |s| if none. */
  function Newline(s: string): (p: nat)
    ensures p <= |s| && (p < |s| ==> s[p] == '\n') && forall j :: 0 <= j < p ==> s[j] != '\n'
  {
    if s == "" || s[0] == '\n' then 0 else 1 + Newline(s[1..])
  }

  /** One trailing carriage return is dropped. */
  function Stripped(s: string): string { if s != "" && s[|s| - 1] == '\r' then s[..|s| - 1] else s }

  function Joined(chunks: seq<string>): string { if chunks == [] then "" else chunks[0] + Joined(chunks[1..]) }

  /** What reads can return: something, and no more than the buffer they were given. */
  predicate AreReads(chunks: seq<string>) { forall i :: 0 <= i < |chunks| ==> 0 < |chunks[i]| <= READ_SIZE }

  /** The line, if any, the buffer left, and the fragments not yet read. */
  datatype Received = Received(line: Option<string>, rx: string, chunks: seq<string>)

  function Recv(rx: string, chunks: seq<string>): Received
    decreases |chunks|
  {
    var p := Newline(rx);
    if p < |rx| then Received(Some(Stripped(rx[..p])), rx[p + 1..], chunks)
    else if |rx| > MAX_LINE || chunks == [] then Received(None, "", chunks)
    else Recv(rx + chunks[0], chunks[1..])
  }

  class Connection {
    var isOpen: bool
    var rx: string
    var chunks: seq<string>        // still to come from the peer; none left means closed
    var wire: string               // bytes handed to the socket
    const accepts: nat -> int      // how many bytes the n-th write takes, <= 0 for an error
    var writes: nat

    predicate Valid() reads this { |rx| <= MAX_LINE + READ_SIZE && AreReads(chunks) }

    constructor (chunks: seq<string>, accepts: nat -> int)
      requires AreReads(chunks)
      ensures Valid() && isOpen && rx == "" && this.chunks == chunks && wire == "" && this.accepts == accepts
    {
      isOpen, rx, this.chunks, wire, this.accepts, writes := true, "", chunks, "", accepts, 0;
    }

    method Close()
      modifies `isOpen, `rx
      ensures !isOpen && rx == ""
    {
      isOpen, rx := false, "";
    }

    method RecvLine() returns (line: Option<string>)
      requires Valid()
      modifies `isOpen, `rx, `chunks
      ensures Valid()
      ensures !old(isOpen) ==> line.None? && !isOpen && rx == old(rx) && chunks == old(chunks)
      ensures old(isOpen) ==> Received(line, rx, chunks) == Recv(old(rx), old(chunks)) && isOpen == line.Some?
    {
      if !isOpen { return None; }
      while true
        invariant Valid() && isOpen && Recv(rx, chunks) == Recv(old(rx), old(chunks))
        decreases |chunks|
      {
        var nl := Newline(rx);
        if nl < |rx| {
          line := Some(Stripped(rx[..nl]));
          rx := rx[nl + 1..];
          return;
        }
        if |rx| > MAX_LINE || chunks == [] {
          Close();
          return None;
        }
        rx := rx + chunks[0];
        chunks := chunks[1..];
      }
    }

    method SendLine(line: string) returns (ok: bool)
      modifies `isOpen, `rx, `wire, `writes
      ensures ok ==> isOpen && wire == old(wire) + line + "\n" && rx == old(rx)
      ensures !ok ==> !isOpen && old(wire) <= wire < old(wire) + line + "\n"
    {
      if !isOpen { return false; }
      var out := line + "\n";
      var sent := 0;
      while sent < |out|
        invariant 0 <= sent <= |out| && isOpen && rx == old(rx) && wire == old(wire) + out[..sent]
        decreases |out| - sent
      {
        var n := accepts(writes);
        writes := writes + 1;
        if n <= 0 {
          Close();
          return false;
        }
        var m := if n > |out| - sent then |out| - sent else n;
        wire := wire + out[sent..sent + m];
        sent := sent + m;
        assert out[..sent - m] + out[sent - m..sent] == out[..sent];
      }
      return true;
    }
  }

  // ---- what is delivered depends on the bytes, not on the fragments -------------------------------

  lemma NewlineOfPrefix(s: string, t: string)
    ensures Newline(s) < |s| ==> Newline(s + t) == Newline(s)
    ensures Newline(s) == |s| ==> Newline(s + t) == |s| + Newline(t)
  {
    if s == "" {
      assert s + t == t;
    } else if s[0] != '\n' {
      assert (s + t)[1..] == s[1..] + t;
      NewlineOfPrefix(s[1..], t);
    }
  }

  /** Some read boundary leaves more than 64 KiB of an unfinished line, p bytes long, in the buffer. */
  predicate CaughtMidLine(rx: string, chunks: seq<string>, p: nat)
    decreases |chunks|
  {
    MAX_LINE < |rx| <= p || (|rx| <= p && chunks != [] && CaughtMidLine(rx + chunks[0], chunks[1..], p))
  }

  /**
    The next line is the stream's next line, and the rest of the stream stays for later, exactly
    when the stream has one and no read boundary catches more than 64 KiB of it.
   */
  lemma {:induction false} RecvIsNextLine(rx: string, chunks: seq<string>)
    ensures var s, r := rx + Joined(chunks), Recv(rx, chunks);
      var p := Newline(s);
      && (r.line.Some? <==> p < |s| && !CaughtMidLine(rx, chunks, p))
      && (r.line.Some? ==> r.line.value == Stripped(s[..p]) && r.rx + Joined(r.chunks) == s[p + 1..])
    decreases |chunks|
  {
    var s, q := rx + Joined(chunks), Newline(rx);
    NewlineOfPrefix(rx, Joined(chunks));
    if q < |rx| {
      assert s[..q] == rx[..q] && s[q + 1..] == rx[q + 1..] + Joined(chunks);
    } else if |rx| <= MAX_LINE && chunks != [] {
      assert s == (rx + chunks[0]) + Joined(chunks[1..]);
      RecvIsNextLine(rx + chunks[0], chunks[1..]);
    }
  }

  /** A line of at most 64 KiB is never caught, however the stream is fragmented. */
  lemma {:induction false} ShortLinesAreSafe(rx: string, chunks: seq<string>, p: nat)
    requires p <= 65536
    ensures !CaughtMidLine(rx, chunks, p)
    decreases |chunks|
  {
    if chunks != [] && |rx| <= p {
      ShortLinesAreSafe(rx + chunks[0], chunks[1..], p);
    }
  }

  /** A line of 64 KiB + 4096 or more is always caught. */
  lemma {:induction false} LongLinesAreCaught(rx: string, chunks: seq<string>, p: nat)
    requires AreReads(chunks) && 65536 + 4096 <= p < |rx + Joined(chunks)| && |rx| <= MAX_LINE + READ_SIZE
    ensures CaughtMidLine(rx, chunks, p)
    decreases |chunks|
  {
    if |rx| <= MAX_LINE {
      assert chunks != [];
      assert rx + Joined(chunks) == (rx + chunks[0]) + Joined(chunks[1..]);
      assert forall i :: 0 <= i < |chunks[1..]| ==> chunks[1..][i] == chunks[i + 1];
      LongLinesAreCaught(rx + chunks[0], chunks[1..], p);
    }
  }

  // ---- whole conversations --------------------------------------------------------------------------

  /** The bytes of n lines as the sender puts them on the wire. */
  function Wire(lines: seq<string>): string { if lines == [] then "" else lines[0] + "\n" + Wire(lines[1..]) }

  /** n calls of recv_line. */
  function Delivered(rx: string, chunks: seq<string>, n: nat): seq<Option<string>>
    decreases n
  {
    if n == 0 then []
    else
      var r := Recv(rx, chunks);
      if r.line.None? then [None] else [r.line] + Delivered(r.rx, r.chunks, n - 1)
  }

  /** Every newline-terminated line of the stream, each without one trailing carriage return. */
  function Lines(stream: string): seq<string>
    decreases |stream|
  {
    var p := Newline(stream);
    if p == |stream| then [] else [Stripped(stream[..p])] + Lines(stream[p + 1..])
  }

  /** Each line of the stream, before its newline, has at most 64 KiB. */
  predicate LinesFit(stream: string)
    decreases |stream|
  {
    var p := Newline(stream);
    p == |stream| || (p <= MAX_LINE && LinesFit(stream[p + 1..]))
  }

  function Somes(lines: seq<string>): seq<Option<string>>
  {
    if lines == [] then [] else [Some(lines[0])] + Somes(lines[1..])
  }

  /**
    However a stream is fragmented, its lines are delivered exactly, in order, when each has at
    most 64 KiB.
   */
  lemma {:induction false} FragmentationIsInvisible(rx: string, chunks: seq<string>)
    requires LinesFit(rx + Joined(chunks))
    ensures var lines := Lines(rx + Joined(chunks)); Delivered(rx, chunks, |lines|) == Somes(lines)
    decreases |rx + Joined(chunks)|
  {
    hide Recv, CaughtMidLine;
    var s := rx + Joined(chunks);
    var p := Newline(s);
    if p < |s| {
      var r := Recv(rx, chunks);
      RecvIsNextLine(rx, chunks);
      ShortLinesAreSafe(rx, chunks, p);
      FragmentationIsInvisible(r.rx, r.chunks);
      assert Lines(s)[1..] == Lines(s[p + 1..]);
    }
  }

  /** A line the framing can carry: no newline, no trailing carriage return, at most 64 KiB. */
  predicate Sendable(line: string)
  {
    |line| <= MAX_LINE && (forall i :: 0 <= i < |line| ==> line[i] != '\n') && (line != "" ==> line[|line| - 1] != '\r')
  }

  lemma NoNewline(s: string)
    requires forall i :: 0 <= i < |s| ==> s[i] != '\n'
    ensures Newline(s) == |s|
  {
  }

  lemma FirstOnWire(line: string, rest: string)
    requires |line| <= MAX_LINE && forall i :: 0 <= i < |line| ==> line[i] != '\n'
    ensures Lines(line + "\n" + rest) == [Stripped(line)] + Lines(rest)
    ensures LinesFit(line + "\n" + rest) <==> LinesFit(rest)
  {
    var s := line + "\n" + rest;
    assert s == line + ("\n" + rest) && ("\n" + rest)[0] == '\n';
    NoNewline(line);
    NewlineOfPrefix(line, "\n" + rest);
    assert Newline(s) == |line| && s[..|line|] == line && s[|line| + 1..] == rest;
  }

  lemma SendableMeans(line: string)
    requires Sendable(line)
    ensures |line| <= MAX_LINE && (forall i :: 0 <= i < |line| ==> line[i] != '\n') && Stripped(line) == line
  {
  }

  lemma {:induction false} WireHasItsLines(lines: seq<string>)
    requires forall i :: 0 <= i < |lines| ==> Sendable(lines[i])
    ensures Lines(Wire(lines)) == lines && LinesFit(Wire(lines))
    decreases |lines|
  {
    hide Sendable;
    if lines == [] {
    } else {
      assert forall i :: 0 <= i < |lines[1..]| ==> lines[1..][i] == lines[i + 1];
      WireHasItsLines(lines[1..]);
      SendableMeans(lines[0]);
      FirstOnWire(lines[0], Wire(lines[1..]));
      assert [lines[0]] + lines[1..] == lines;
    }
  }

  /** recv_line inverts send_line on such lines, for every fragmentation. */
  lemma ReceiveInvertsSend(lines: seq<string>, chunks: seq<string>)
    requires forall i :: 0 <= i < |lines| ==> Sendable(lines[i])
    requires Joined(chunks) == Wire(lines)
    ensures Delivered("", chunks, |lines|) == Somes(lines)
  {
    WireHasItsLines(lines);
    assert "" + Joined(chunks) == Wire(lines);
    FragmentationIsInvisible("", chunks);
  }

  /** The lines as sent, with a carriage return behind those marked. */
  function WithReturns(lines: seq<string>, marked: seq<bool>): (sent: seq<string>)
    requires |lines| == |marked|
    ensures |sent| == |lines|
  {
    seq(|lines|, i requires 0 <= i < |lines| => if marked[i] then lines[i] + "\r" else lines[i])
  }

  /** No newline inside, at most 64 KiB, and only a marked line may end in a carriage return of its own. */
  predicate Markable(line: string, marked: bool)
  {
    && |line| + (if marked then 1 else 0) <= MAX_LINE
    && (forall i :: 0 <= i < |line| ==> line[i] != '\n')
    && (!marked && line != "" ==> line[|line| - 1] != '\r')
  }

  lemma {:induction false} MarkedLines(lines: seq<string>, marked: seq<bool>)
    requires |lines| == |marked| && forall i :: 0 <= i < |lines| ==> Markable(lines[i], marked[i])
    ensures var wire := Wire(WithReturns(lines, marked)); Lines(wire) == lines && LinesFit(wire)
    decreases |lines|
  {
    hide Markable;
    var sent := WithReturns(lines, marked);
    if lines == [] {
    } else {
      assert forall i :: 0 <= i < |lines[1..]| ==> lines[1..][i] == lines[i + 1] && marked[1..][i] == marked[i + 1];
      MarkedLines(lines[1..], marked[1..]);
      assert sent[1..] == WithReturns(lines[1..], marked[1..]);
      OneReturnLess(lines[0], marked[0]);
      FirstOnWire(sent[0], Wire(sent[1..]));
      assert [lines[0]] + lines[1..] == lines;
    }
  }

  lemma OneReturnLess(line: string, marked: bool)
    requires Markable(line, marked)
    ensures var sent := if marked then line + "\r" else line;
      && Stripped(sent) == line && |sent| <= MAX_LINE
      && forall i :: 0 <= i < |sent| ==> sent[i] != '\n'
  {
    if marked {
      assert (line + "\r")[..|line|] == line;
    }
  }

  /**
    A line sent with a carriage return behind it arrives without exactly that one character, and
    the others as they are, for every mixture of the two and every fragmentation.
   */
  lemma OneReturnIsDropped(lines: seq<string>, marked: seq<bool>, chunks: seq<string>)
    requires |lines| == |marked| && forall i :: 0 <= i < |lines| ==> Markable(lines[i], marked[i])
    requires Joined(chunks) == Wire(WithReturns(lines, marked))
    ensures Delivered("", chunks, |lines|) == Somes(lines)
  {
    hide Markable, Delivered, Lines, LinesFit;
    MarkedLines(lines, marked);
    assert "" + Joined(chunks) == Joined(chunks);
    FragmentationIsInvisible("", chunks);
  }

  /** And only on such lines: with a newline or a trailing carriage return something else arrives. */
  lemma UnsendableIsNotInverted(line: string, chunks: seq<string>)
    requires |line| <= MAX_LINE && !Sendable(line) && Joined(chunks) == Wire([line])
    ensures Delivered("", chunks, 1) != [Some(line)]
  {
    hide Recv, CaughtMidLine;
    var s := line + "\n";
    assert Wire([line]) == s && "" + Joined(chunks) == s;
    NewlineOfPrefix(line, "\n");
    RecvIsNextLine("", chunks);
    var r := Recv("", chunks);
    assert Newline("\n") == 0;
    if Newline(line) == |line| {
      assert s[..|line|] == line && Stripped(line) != line;
    } else {
      assert |Stripped(s[..Newline(line)])| < |line|;
    }
    assert r.line.Some? ==> r.line.value != line;
    assert Delivered("", chunks, 1)[0] == r.line;
    assert r.line.Some? ==> Delivered("", chunks, 1) == [r.line] + Delivered(r.rx, r.chunks, 0);
  }
}
