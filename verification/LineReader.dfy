/** Line reassembly over descriptors that deliver text in pieces (cppgrok/fileobserver.hpp). */
module LineReader {

  // ---------- Splitting a text into lines ----------

  predicate NoNewline(s: string) {
    forall i :: 0 <= i < |s| ==> s[i] != '\n'
  }

  /** The lines put back together, each with its newline. */
  function Joined(lines: seq<string>): string {
    if lines == [] then "" else lines[0] + "\n" + Joined(lines[1..])
  }

  /** s is the given lines, each ended by a newline, and then an unfinished line. */
  predicate IsSplit(s: string, lines: seq<string>, rest: string) {
    && s == Joined(lines) + rest
    && NoNewline(rest)
    && forall k :: 0 <= k < |lines| ==> NoNewline(lines[k])
  }

  lemma {:induction false} JoinedAppend(a: seq<string>, b: seq<string>)
    ensures Joined(a + b) == Joined(a) + Joined(b)
  {
    if a == [] {
      assert a + b == b;
    } else {
      assert (a + b)[1..] == a[1..] + b;
      JoinedAppend(a[1..], b);
    }
  }

  lemma NewlineFound(s: string, lines: seq<string>, rest: string)
    requires IsSplit(s, lines, rest)
    ensures lines == [] <==> NoNewline(s)
    ensures lines == [] ==> s == rest
  {
    if lines != [] { assert s[|lines[0]|] == '\n'; }
  }

  /** A text splits in one way only. */
  lemma {:induction false} SplitUnique(s: string, lines: seq<string>, rest: string, lines': seq<string>, rest': string)
    requires IsSplit(s, lines, rest) && IsSplit(s, lines', rest')
    ensures lines == lines' && rest == rest'
    decreases |lines|
  {
    NewlineFound(s, lines, rest);
    NewlineFound(s, lines', rest');
    if lines != [] {
      var n, n' := |lines[0]|, |lines'[0]|;
      assert s[n] == '\n' && s[n'] == '\n';
      assert forall i :: 0 <= i < n ==> s[i] == lines[0][i];
      assert forall i :: 0 <= i < n' ==> s[i] == lines'[0][i];
      assert n == n';
      assert lines[0] == s[..n] == lines'[0];
      assert s[n + 1..] == Joined(lines[1..]) + rest == Joined(lines'[1..]) + rest';
      SplitUnique(s[n + 1..], lines[1..], rest, lines'[1..], rest');
    }
  }

  /** Splitting what was left over together with more text continues the split. */
  lemma SplitContinues(s: string, lines: seq<string>, rest: string, more: string, lines': seq<string>, rest': string)
    requires IsSplit(s, lines, rest) && IsSplit(rest + more, lines', rest')
    ensures IsSplit(s + more, lines + lines', rest')
  {
    JoinedAppend(lines, lines');
    assert s + more == Joined(lines) + (rest + more);
  }

  /** Where the next newline is, |s| when there is none. */
  function Find(s: string, from: nat): (k: nat)
    requires from <= |s|
    ensures from <= k <= |s| && NoNewline(s[from..k])
    ensures k < |s| ==> s[k] == '\n'
    decreases |s| - from
  {
    if from == |s| || s[from] == '\n' then from
    else
      var k := Find(s, from + 1);
      assert forall i :: 0 < i < k - from ==> s[from..k][i] == s[from + 1..k][i - 1];
      k
  }

  // ---------- Reads ----------

  /** What fgets leaves: end of input, or a filled buffer. */
  datatype Read = End | Filled(buffer: string)

  /** A buffer counts up to its first NUL. */
  function Measured(s: string): (r: string)
    ensures r <= s && '\0' !in r && (|r| < |s| ==> s[|r|] == '\0')
    ensures r == s <==> '\0' !in s
  {
    if s == [] || s[0] == '\0' then [] else [s[0]] + Measured(s[1..])
  }

  function Text(r: Read): string {
    match r case End => "" case Filled(buffer) => Measured(buffer)
  }

  /** The text that reads add to a buffer. */
  function Received(inputs: seq<Read>): string {
    if inputs == [] then "" else Received(inputs[..|inputs| - 1]) + Text(inputs[|inputs| - 1])
  }

  /** What the descriptor delivered. */
  function Delivered(inputs: seq<Read>): string {
    if inputs == [] then ""
    else Delivered(inputs[..|inputs| - 1]) + (match inputs[|inputs| - 1] case End => "" case Filled(buffer) => buffer)
  }

  /** Nothing delivered is lost exactly when there is no NUL in it. */
  lemma {:induction false} AllReceived(inputs: seq<Read>)
    ensures |Received(inputs)| <= |Delivered(inputs)|
    ensures Received(inputs) == Delivered(inputs) <==> '\0' !in Delivered(inputs)
  {
    if inputs != [] {
      var front, last := inputs[..|inputs| - 1], inputs[|inputs| - 1];
      AllReceived(front);
      if Received(inputs) == Delivered(inputs) {
        assert |Received(front)| == |Delivered(front)|;
        assert Delivered(front) == Delivered(inputs)[..|Delivered(front)|];
        assert Received(front) == Received(inputs)[..|Received(front)|];
        assert last.Filled? ==> Text(last) == Delivered(inputs)[|Delivered(front)|..];
      }
    }
  }

  /** After n of the reads no more are taken: the input has ended or the buffer is over its limit. */
  predicate Stops(buffer: string, inputs: seq<Read>, n: nat, limit: nat)
    requires n <= |inputs|
  {
    n > 0 && (inputs[n - 1].End? || |buffer + Received(inputs[..n])| > limit)
  }

  /** Fewer than n reads are not enough to stop. */
  predicate GoesOn(buffer: string, inputs: seq<Read>, n: nat, limit: nat)
    requires n <= |inputs|
  {
    forall k :: 0 <= k < n ==> !Stops(buffer, inputs, k, limit)
  }

  // ---------- The reader ----------

  const SIZES: nat := 0x1_0000_0000_0000_0000

  datatype Line = Line(fd: int, text: string)

  function Tagged(fd: int, lines: seq<string>): (r: seq<Line>)
    ensures |r| == |lines| && forall k :: 0 <= k < |r| ==> r[k] == Line(fd, lines[k])
  {
    seq(|lines|, k requires 0 <= k < |lines| => Line(fd, lines[k]))
  }

  function Lookup<T>(m: map<int, T>, fd: int, default: T): T {
    if fd in m then m[fd] else default
  }

  class FileObserver {
    var old_buffers: map<int, string>
    var buffer_size_limit: nat
    /** All text received and all lines given out so far, by descriptor. */
    ghost var stream: map<int, string>
    ghost var emitted: map<int, seq<string>>

    ghost function Stream(fd: int): string reads this { Lookup(stream, fd, "") }
    ghost function Emitted(fd: int): seq<string> reads this { Lookup(emitted, fd, []) }
    function Buffer(fd: int): string reads this { Lookup(old_buffers, fd, "") }

    /** On every descriptor, the lines given out and the saved remainder split the whole stream. */
    ghost predicate Valid() reads this {
      forall fd :: Reassembled(fd)
    }

    ghost predicate Reassembled(fd: int) reads this {
      IsSplit(Stream(fd), Emitted(fd), Buffer(fd))
    }

    constructor ()
      ensures Valid() && buffer_size_limit == 5 * 0x100000
      ensures stream == map[] && emitted == map[]
    {
      old_buffers, buffer_size_limit := map[], 5 * 0x100000;
      stream, emitted := map[], map[];
    }

    /** Takes what is ready on fd, gives out the full lines and saves the rest. */
    method ReadLinesFromInput(fd: int, ready: seq<Read>, data: seq<Line>) returns (data': seq<Line>, taken: nat)
      requires Valid()
      modifies this
      ensures Valid() && buffer_size_limit == old(buffer_size_limit)
      ensures taken <= |ready| && (taken < |ready| ==> Stops(old(Buffer(fd)), ready, taken, buffer_size_limit))
      ensures GoesOn(old(Buffer(fd)), ready, taken, buffer_size_limit)
      ensures stream == old(stream[fd := Stream(fd) + Received(ready[..taken])])
      ensures exists found :: emitted == old(emitted[fd := Emitted(fd) + found]) && data' == data + Tagged(fd, found)
      ensures old_buffers == old(old_buffers)[fd := Buffer(fd)]
    {
      var buffer;
      buffer, taken := Fill(fd, ready);
      ghost var text := Received(ready[..taken]);
      var found, remainder := Cut(buffer);
      data' := data + Tagged(fd, found);
      Save(fd, remainder, text, found);
    }

    /** Saves what is left after text was appended and the lines found in it were taken out. */
    method Save(fd: int, remainder: string, ghost text: string, ghost found: seq<string>)
      requires Valid() && IsSplit(Buffer(fd) + text, found, remainder)
      modifies this
      ensures Valid() && buffer_size_limit == old(buffer_size_limit)
      ensures old_buffers == old(old_buffers)[fd := remainder]
      ensures stream == old(stream[fd := Stream(fd) + text]) && emitted == old(emitted[fd := Emitted(fd) + found])
    {
      assert Reassembled(fd);
      SplitContinues(Stream(fd), Emitted(fd), Buffer(fd), text, found, remainder);
      old_buffers := old_buffers[fd := remainder];
      stream := stream[fd := Stream(fd) + text];
      emitted := emitted[fd := Emitted(fd) + found];
      forall other | other != fd ensures Reassembled(other) {
        assert old(Reassembled(other));
      }
    }

    /** Reads while the descriptor is ready. */
    method Fill(fd: int, ready: seq<Read>) returns (buffer: string, taken: nat)
      ensures taken <= |ready| && buffer == Buffer(fd) + Received(ready[..taken])
      ensures taken < |ready| ==> Stops(Buffer(fd), ready, taken, buffer_size_limit)
      ensures GoesOn(Buffer(fd), ready, taken, buffer_size_limit)
    {
      buffer, taken := Buffer(fd), 0;
      ghost var start, limit := buffer, buffer_size_limit;
      var done := false;
      while !done
        invariant taken <= |ready| && buffer == start + Received(ready[..taken])
        invariant GoesOn(start, ready, taken, limit)
        invariant !done ==> !Stops(start, ready, taken, limit)
        invariant done && taken < |ready| ==> Stops(start, ready, taken, limit)
        decreases !done, |ready| - taken
      {
        if taken == |ready| {
          done := true;
        } else {
          ReceivedNext(start, ready, taken);
          match ready[taken] {
            case End => done := true;
            case Filled(readbuf) => buffer := buffer + Measured(readbuf);
          }
          taken := taken + 1;
          if |buffer| > buffer_size_limit { done := true; }
        }
      }
    }
  }

  lemma ReceivedNext(start: string, inputs: seq<Read>, n: nat)
    requires n < |inputs|
    ensures start + Received(inputs[..n + 1]) == start + Received(inputs[..n]) + Text(inputs[n])
  {
    assert inputs[..n + 1][..n] == inputs[..n];
  }

  /** Cuts a buffer at its newlines. The last index of the buffer is computed on unsigned sizes: it
      wraps around when the buffer is empty. */
  method Cut(buffer: string) returns (found: seq<string>, remainder: string)
    ensures IsSplit(buffer, found, remainder)
  {
    found := [];
    var last_pos := 0;
    var pos := Find(buffer, last_pos);
    while pos < |buffer|
      invariant 0 <= last_pos <= |buffer| && pos == Find(buffer, last_pos)
      invariant IsSplit(buffer[..last_pos], found, "")
      decreases |buffer| - last_pos
    {
      var line := buffer[last_pos..pos];
      assert buffer[..pos + 1] == buffer[..last_pos] + (line + "\n");
      assert Joined([line]) == line + "\n";
      JoinedAppend(found, [line]);
      found := found + [line];
      last_pos := pos + 1;
      pos := Find(buffer, last_pos);
    }
    remainder := "";
    var last := if |buffer| == 0 then SIZES - 1 else |buffer| - 1;
    if last_pos <= last { remainder := buffer[last_pos..]; }
    assert remainder == buffer[last_pos..pos];
    assert buffer == buffer[..last_pos] + remainder;
  }

  /** However the same stream was cut into reads and calls, the same lines came out and the same
      remainder is saved. */
  lemma ChunkingIrrelevant(a: FileObserver, b: FileObserver, fd: int)
    requires a.Valid() && b.Valid() && a.Stream(fd) == b.Stream(fd)
    ensures a.Emitted(fd) == b.Emitted(fd) && a.Buffer(fd) == b.Buffer(fd)
  {
    assert a.Reassembled(fd) && b.Reassembled(fd);
    SplitUnique(a.Stream(fd), a.Emitted(fd), a.Buffer(fd), b.Emitted(fd), b.Buffer(fd));
  }
}
