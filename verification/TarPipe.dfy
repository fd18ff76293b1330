/**
 pkg/mustgather/cp.go, TarPipe: a byte stream read from a pod, reopened where it
 broke off. The remote replays the same bytes each time it is asked; how the stream
 comes out of the pipe, in what pieces and with which breaks, is given as a script.
 */
module TarPipe {

  datatype ReadError = NoError | Broken | EndOfStream

  /** What one read of the open pipe meets: so many bytes ready, or the stream breaking. */
  datatype Event = Chunk(size: nat) | Break

  /** Behind the script, every read finds all it asks for. */
  function Head(script: seq<Event>, wanted: nat): Event {
    if script == [] then Chunk(wanted) else script[0]
  }

  function Tail(script: seq<Event>): seq<Event> { if script == [] then [] else script[1..] }

  function Least(a: nat, b: nat, c: nat): (least: nat)
    ensures least <= a && least <= b && least <= c
    ensures least == a || least == b || least == c
  {
    if a <= b && a <= c then a else if b <= c then b else c
  }

  predicate TriesLeft(maxTries: int, retries: nat) { maxTries < 0 || retries < maxTries }

  class Pipe {
    const stream: seq<char>
    const maxTries: int
    var position: nat       // where in the stream the open pipe is
    var bytesRead: nat
    var retries: nat
    var script: seq<Event>

    ghost predicate Valid()
      reads this
    {
      && position == bytesRead <= |stream|
      && (maxTries >= 0 ==> retries <= maxTries)
    }

    constructor (remote: seq<char>, tries: int, events: seq<Event>)
      ensures Valid() && stream == remote && maxTries == tries && script == events
      ensures bytesRead == 0 && retries == 0
    {
      stream, maxTries, script := remote, tries, events;
      position, bytesRead, retries := 0, 0, 0;
    }

    /** Opens the stream. With retries asked for, it is opened at the n-th byte, the
        first being number 1 and 0 meaning the same; without, from the start. */
    method InitReadFrom(n: nat)
      modifies this`position
      ensures position == if maxTries == 0 || n == 0 then 0 else if n - 1 <= |stream| then n - 1 else |stream|
    {
      if maxTries == 0 || n == 0 {
        position := 0;
      } else {
        position := if n - 1 <= |stream| then n - 1 else |stream|;
      }
    }

    /** The pipe hands over what is ready, as far as it is wanted and there is any left,
        or an error, never both. At the end of the stream the error is the end itself. */
    method PipeRead(p: array<char>) returns (n: nat, err: ReadError)
      requires position <= |stream|
      modifies this`position, this`script, p
      ensures script == Tail(old(script))
      ensures err == if Head(old(script), p.Length).Break? then Broken else if old(position) == |stream| then EndOfStream else NoError
      ensures n == if err != NoError then 0 else Least(Head(old(script), p.Length).size, p.Length, |stream| - old(position))
      ensures position == old(position) + n <= |stream|
      ensures p[..n] == stream[old(position)..position] && p[n..] == old(p[n..])
    {
      var event := Head(script, p.Length);
      script := Tail(script);
      if event.Break? { return 0, Broken; }
      if position == |stream| { return 0, EndOfStream; }
      var start := position;
      n := Least(event.size, p.Length, |stream| - start);
      for i := 0 to n
        invariant p[..i] == stream[start..start + i]
        invariant p[i..] == old(p[i..])
        invariant script == Tail(old(script))
      {
        p[i] := stream[start + i];
        assert stream[start..start + i + 1] == stream[start..start + i] + [stream[start + i]];
        assert p[..i + 1] == p[..i] + [p[i]];
      }
      position := start + n;
      err := NoError;
    }

    /** Whatever the pipe handed over is delivered, and is the next bytes of the stream.
        An error, the end of the stream included, is retried while retries are left: the
        stream is reopened and nothing is reported; else it is reported as it came. */
    method Read(p: array<char>) returns (n: nat, err: ReadError)
      requires Valid()
      modifies this, p
      ensures Valid() && script == Tail(old(script))
      ensures n <= p.Length && bytesRead == old(bytesRead) + n
      ensures p[..n] == stream[old(bytesRead)..bytesRead] && p[n..] == old(p[n..])
      ensures var event := Head(old(script), p.Length);
        if event.Break? || old(bytesRead) == |stream| then
          n == 0 &&
          if TriesLeft(maxTries, old(retries)) then err == NoError && retries == old(retries) + 1
          else err == (if event.Break? then Broken else EndOfStream) && retries == old(retries)
        else n == Least(event.size, p.Length, |stream| - old(bytesRead)) && err == NoError && retries == old(retries)
    {
      n, err := PipeRead(p);
      if err != NoError {
        if maxTries < 0 || retries < maxTries {
          retries := retries + 1;
          InitReadFrom(bytesRead + 1);
          err := NoError;
        }
      } else {
        bytesRead := bytesRead + n;
      }
    }

    /** Any run of reads, through buffers of any size, up to the first error: what was
        delivered in all is the stretch of the stream it began and ended at, and how far
        it got is what the script plays out to. */
    method Drain(sizes: seq<nat>) returns (got: seq<char>, err: ReadError)
      requires Valid()
      modifies this
      ensures Valid() && old(bytesRead) <= bytesRead
      ensures got == stream[old(bytesRead)..bytesRead]
      ensures Progress(bytesRead, retries, err) == Play(|stream|, maxTries, old(bytesRead), old(retries), sizes, old(script))
    {
      got, err := [], NoError;
      for i := 0 to |sizes|
        invariant Valid() && old(bytesRead) <= bytesRead && err == NoError
        invariant got == stream[old(bytesRead)..bytesRead]
        invariant Play(|stream|, maxTries, old(bytesRead), old(retries), sizes, old(script)) ==
                  Play(|stream|, maxTries, bytesRead, retries, sizes[i..], script)
      {
        var p := new char[sizes[i]];
        ghost var before := bytesRead;
        assert sizes[i..][1..] == sizes[i + 1..];
        var n;
        n, err := Read(p);
        assert stream[old(bytesRead)..bytesRead] == stream[old(bytesRead)..before] + stream[before..bytesRead];
        got := got + p[..n];
        if err != NoError { return; }
      }
    }
  }

  // ----- what a script plays out to -----

  datatype Progress = Progress(bytesRead: nat, retries: nat, err: ReadError)

  function Next(total: nat, maxTries: int, bytesRead: nat, retries: nat, size: nat, event: Event): Progress
    requires bytesRead <= total
  {
    if event.Chunk? && bytesRead < total then Progress(bytesRead + Least(event.size, size, total - bytesRead), retries, NoError)
    else if TriesLeft(maxTries, retries) then Progress(bytesRead, retries + 1, NoError)
    else Progress(bytesRead, retries, if event.Break? then Broken else EndOfStream)
  }

  function Play(total: nat, maxTries: int, bytesRead: nat, retries: nat, sizes: seq<nat>, script: seq<Event>): Progress
    requires bytesRead <= total
    decreases |sizes|
  {
    if sizes == [] then Progress(bytesRead, retries, NoError)
    else
      var next := Next(total, maxTries, bytesRead, retries, sizes[0], Head(script, sizes[0]));
      if next.err != NoError then next
      else Play(total, maxTries, next.bytesRead, next.retries, sizes[1..], Tail(script))
  }

  function Breaks(script: seq<Event>): nat {
    if script == [] then 0 else (if script[0].Break? then 1 else 0) + Breaks(script[1..])
  }

  /** No read asks for nothing, and no write into the pipe is of nothing. */
  ghost predicate MovesOn(sizes: seq<nat>, script: seq<Event>) {
    (forall i :: 0 <= i < |sizes| ==> sizes[i] > 0) && forall i :: 0 <= i < |script| && script[i].Chunk? ==> script[i].size > 0
  }

  lemma {:induction false} EndIsKept(total: nat, maxTries: int, retries: nat, sizes: seq<nat>, script: seq<Event>)
    ensures Play(total, maxTries, total, retries, sizes, script).bytesRead == total
    decreases |sizes|
  {
    if sizes != [] && TriesLeft(maxTries, retries) { EndIsKept(total, maxTries, retries + 1, sizes[1..], Tail(script)); }
  }

  /** A stream that breaks no more often than there are tries left is delivered to its
      last byte, by as many reads as there are bytes and breaks. */
  lemma {:induction false} EveryByteArrives(total: nat, maxTries: int, bytesRead: nat, retries: nat, sizes: seq<nat>, script: seq<Event>)
    requires bytesRead <= total && MovesOn(sizes, script)
    requires maxTries < 0 || retries + Breaks(script) <= maxTries
    requires |sizes| >= total - bytesRead + Breaks(script)
    ensures Play(total, maxTries, bytesRead, retries, sizes, script).bytesRead == total
    decreases |sizes|
  {
    if bytesRead == total {
      EndIsKept(total, maxTries, retries, sizes, script);
    } else {
      var event := Head(script, sizes[0]);
      var next := Next(total, maxTries, bytesRead, retries, sizes[0], event);
      EveryByteArrives(total, maxTries, next.bytesRead, next.retries, sizes[1..], Tail(script));
    }
  }

  /** Reading stops short of the end only for more breaks than there are tries left. */
  lemma {:induction false} StopsShortOnlyForBreaks(total: nat, maxTries: int, bytesRead: nat, retries: nat, sizes: seq<nat>, script: seq<Event>)
    requires bytesRead <= total
    requires var end := Play(total, maxTries, bytesRead, retries, sizes, script);
      end.err != NoError && end.bytesRead < total
    ensures maxTries >= 0 && retries + Breaks(script) > maxTries
    ensures Play(total, maxTries, bytesRead, retries, sizes, script).err == Broken
    decreases |sizes|
  {
    var next := Next(total, maxTries, bytesRead, retries, sizes[0], Head(script, sizes[0]));
    if next.err == NoError {
      if bytesRead == total { EndIsKept(total, maxTries, retries, sizes, script); }
      StopsShortOnlyForBreaks(total, maxTries, next.bytesRead, next.retries, sizes[1..], Tail(script));
    }
  }

  /** The end is reported once every byte was delivered, and nothing ever is when the
      tries are without number. */
  lemma {:induction false} EndMeansAll(total: nat, maxTries: int, bytesRead: nat, retries: nat, sizes: seq<nat>, script: seq<Event>)
    requires bytesRead <= total
    ensures var end := Play(total, maxTries, bytesRead, retries, sizes, script);
      && (end.err == EndOfStream ==> end.bytesRead == total)
      && (maxTries < 0 ==> end.err == NoError)
      && (end.err != NoError ==> !TriesLeft(maxTries, end.retries))
    decreases |sizes|
  {
    if sizes != [] {
      var next := Next(total, maxTries, bytesRead, retries, sizes[0], Head(script, sizes[0]));
      if next.err == NoError { EndMeansAll(total, maxTries, next.bytesRead, next.retries, sizes[1..], Tail(script)); }
    }
  }
}
