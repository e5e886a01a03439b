/**
  The copy loop of both inventory `getOutput` methods: a `BufferedReader`
  over the job output hands out lines with `readLine`, and each line is
  written without its terminator, so the saved file is the body with every
  line terminator removed.

  `readLine` ends a line at '\n', at '\r', or at "\r\n" (one terminator), and
  at the end of the input; it returns null once the input is exhausted, so a
  final terminator does not start an empty last line.
*/
module LineCopy {
  import opened Wrappers

  predicate IsTerminator(c: char) {
    c == '\n' || c == '\r'
  }

  /** The body with every '\n' and '\r' removed. */
  function StripTerminators(s: string): (r: string)
    ensures forall k :: 0 <= k < |r| ==> !IsTerminator(r[k])
    ensures |r| <= |s|
  {
    if s == [] then []
    else (if IsTerminator(s[0]) then [] else [s[0]]) + StripTerminators(s[1..])
  }

  lemma {:induction false} StripTerminatorsConcat(a: string, b: string)
    ensures StripTerminators(a + b) == StripTerminators(a) + StripTerminators(b)
  {
    if a != [] {
      var h := if IsTerminator(a[0]) then [] else [a[0]];
      assert StripTerminators(a + b) == h + StripTerminators(a[1..] + b) by {
        assert (a + b)[0] == a[0];
        assert (a + b)[1..] == a[1..] + b;
      }
      StripTerminatorsConcat(a[1..], b);
      assert h + (StripTerminators(a[1..]) + StripTerminators(b))
          == (h + StripTerminators(a[1..])) + StripTerminators(b);
    } else {
      assert a + b == b;
    }
  }

  /** Removing terminators from text that has none changes nothing. */
  lemma {:induction false} StripTerminatorsNone(s: string)
    requires forall k :: 0 <= k < |s| ==> !IsTerminator(s[k])
    ensures StripTerminators(s) == s
  {
    if s != [] {
      StripTerminatorsNone(s[1..]);
    }
  }

  /** The index of the first terminator at or after `pos`, or the end of the body. */
  function LineEnd(body: string, pos: nat): (e: nat)
    requires pos <= |body|
    ensures pos <= e <= |body|
    ensures e < |body| ==> IsTerminator(body[e])
    ensures forall k :: pos <= k < e ==> !IsTerminator(body[k])
    decreases |body| - pos
  {
    if pos == |body| || IsTerminator(body[pos]) then pos else LineEnd(body, pos + 1)
  }

  /**
    One `readLine` at `pos` (not at the end): the line and the position after
    its terminator.
  */
  function ReadLine(body: string, pos: nat): (r: (string, nat))
    requires pos < |body|
    ensures pos < r.1 <= |body|
    ensures forall k :: 0 <= k < |r.0| ==> !IsTerminator(r.0[k])
    ensures StripTerminators(body[pos..r.1]) == r.0
  {
    var e := LineEnd(body, pos);
    var next :=
      if e == |body| then e
      else if body[e] == '\r' && e + 1 < |body| && body[e + 1] == '\n' then e + 2
      else e + 1;
    assert next > pos by {
      if e == pos { assert e < |body|; }
    }
    ReadLineStrips(body, pos, e, next);
    (body[pos..e], next)
  }

  lemma ReadLineStrips(body: string, pos: nat, e: nat, next: nat)
    requires pos <= e <= next <= |body|
    requires forall k :: pos <= k < e ==> !IsTerminator(body[k])
    requires forall k :: e <= k < next ==> IsTerminator(body[k])
    ensures StripTerminators(body[pos..next]) == body[pos..e]
  {
    assert body[pos..next] == body[pos..e] + body[e..next];
    StripTerminatorsConcat(body[pos..e], body[e..next]);
    StripTerminatorsNone(body[pos..e]);
    StripOnlyTerminators(body[e..next]);
  }

  lemma {:induction false} StripOnlyTerminators(s: string)
    requires forall k :: 0 <= k < |s| ==> IsTerminator(s[k])
    ensures StripTerminators(s) == []
  {
    if s != [] {
      StripOnlyTerminators(s[1..]);
    }
  }

  /** The lines successive `readLine` calls return from `pos` on, before the null. */
  function LinesFrom(body: string, pos: nat): seq<string>
    requires pos <= |body|
    decreases |body| - pos
  {
    if pos == |body| then []
    else
      var (line, next) := ReadLine(body, pos);
      [line] + LinesFrom(body, next)
  }

  lemma LinesFromFirst(body: string, pos: nat)
    requires pos < |body|
    ensures LinesFrom(body, pos) == [ReadLine(body, pos).0] + LinesFrom(body, ReadLine(body, pos).1)
  {
  }

  function Lines(body: string): seq<string> {
    LinesFrom(body, 0)
  }

  /** The lines joined with nothing between them. */
  function Concat(lines: seq<string>): string {
    if lines == [] then [] else lines[0] + Concat(lines[1..])
  }

  lemma {:induction false} ConcatAppend(lines: seq<string>, line: string)
    ensures Concat(lines + [line]) == Concat(lines) + line
  {
    if lines != [] {
      assert (lines + [line])[1..] == lines[1..] + [line];
      ConcatAppend(lines[1..], line);
    }
  }

  /** Writing every line read, without its terminator, saves the body with its terminators removed. */
  lemma {:induction false} LinesFromStrip(body: string, pos: nat)
    requires pos <= |body|
    ensures Concat(LinesFrom(body, pos)) == StripTerminators(body[pos..])
    decreases |body| - pos
  {
    if pos < |body| {
      var (line, next) := ReadLine(body, pos);
      assert Concat(LinesFrom(body, next)) == StripTerminators(body[next..]) by {
        LinesFromStrip(body, next);
      }
      assert Concat(LinesFrom(body, pos)) == line + Concat(LinesFrom(body, next)) by {
        LinesFromFirst(body, pos);
        var ls := LinesFrom(body, pos);
        assert ls[0] == line && ls[1..] == LinesFrom(body, next);
      }
      assert StripTerminators(body[pos..]) == line + StripTerminators(body[next..]) by {
        assert body[pos..] == body[pos..next] + body[next..];
        StripTerminatorsConcat(body[pos..next], body[next..]);
      }
    }
  }

  /** Lines each followed by '\n', as a writer of the body might produce them. */
  function Terminated(lines: seq<string>): string {
    if lines == [] then [] else lines[0] + "\n" + Terminated(lines[1..])
  }

  /**
    Reading lines back from text where each line is followed by '\n' gives
    exactly those lines, empty ones included.
  */
  lemma {:induction false} ReadLinesOfTerminated(lines: seq<string>)
    requires forall i, k :: 0 <= i < |lines| && 0 <= k < |lines[i]| ==> !IsTerminator(lines[i][k])
    ensures Lines(Terminated(lines)) == lines
  {
    TerminatedSuffix(lines, []);
    assert [] + Terminated(lines) == Terminated(lines);
  }

  lemma {:induction false} TerminatedSuffix(lines: seq<string>, before: string)
    requires forall i, k :: 0 <= i < |lines| && 0 <= k < |lines[i]| ==> !IsTerminator(lines[i][k])
    ensures LinesFrom(before + Terminated(lines), |before|) == lines
    decreases |lines|
  {
    var body := before + Terminated(lines);
    if lines != [] {
      var l := lines[0];
      var rest := Terminated(lines[1..]);
      assert body == before + l + "\n" + rest;
      assert forall k :: 0 <= k < |l| ==> !IsTerminator(l[k]);
      ReadLineBeforeNewline(before, l, rest);
      TerminatedSuffix(lines[1..], before + l + "\n");
      LinesFromFirst(body, |before|);
      assert lines == [l] + lines[1..];
    } else {
      assert |body| == |before|;
    }
  }

  /** Reading at the start of `l` in "<before><l>\n<rest>" gives `l` and goes on at `rest`. */
  lemma ReadLineBeforeNewline(before: string, l: string, rest: string)
    requires forall k :: 0 <= k < |l| ==> !IsTerminator(l[k])
    ensures ReadLine(before + l + "\n" + rest, |before|) == (l, |before| + |l| + 1)
  {
    var body := before + l + "\n" + rest;
    var p := |before|;
    assert forall k :: p <= k < p + |l| ==> body[k] == l[k - p];
    assert body[p + |l|] == '\n';
    assert body[p..p + |l|] == l;
    ReadLineAtNewline(body, p, p + |l|);
  }

  /** A line ended by a '\n' is read without it, and reading goes on after it. */
  lemma ReadLineAtNewline(body: string, pos: nat, e: nat)
    requires pos <= e < |body| && body[e] == '\n'
    requires forall k :: pos <= k < e ==> !IsTerminator(body[k])
    ensures ReadLine(body, pos) == (body[pos..e], e + 1)
  {
    LineEndAt(body, pos, e);
  }

  lemma LineEndAt(body: string, pos: nat, e: nat)
    requires pos <= e < |body| && IsTerminator(body[e])
    requires forall k :: pos <= k < e ==> !IsTerminator(body[k])
    ensures LineEnd(body, pos) == e
  {
  }

  /** One more line read: it is the next of `lines`, and the lines copied grow by it. */
  lemma CopyStep(body: string, pos: nat, lines: seq<string>, count: nat)
    requires pos < |body| && count <= |lines| && lines[count..] == LinesFrom(body, pos)
    ensures var (line, next) := ReadLine(body, pos);
      && count < |lines| && lines[count + 1..] == LinesFrom(body, next)
      && Concat(lines[..count + 1]) == Concat(lines[..count]) + line
  {
    var (line, next) := ReadLine(body, pos);
    LinesFromFirst(body, pos);
    var rest := lines[count..];
    assert rest == [line] + LinesFrom(body, next);
    assert lines[count] == rest[0];
    assert lines[count + 1..] == rest[1..];
    assert lines[..count + 1] == lines[..count] + [line];
    ConcatAppend(lines[..count], line);
  }

  /** `AmazonClientException("Unable to save archive", e)` wrapping the copy's IOException. */
  datatype CopyError = UnableToSaveArchive

  /**
    The copy loop. `failingRead`, when present, is the index of the
    `readLine` or write that throws an IOException; the writer is closed
    (and flushed) on the way out, so the lines copied before it are saved.
  */
  method CopyLines(body: string, failingRead: Option<nat>) returns (result: Result<(), CopyError>, written: string)
    ensures var lines := Lines(body);
      result.Ok? <==> failingRead.None? || failingRead.value > |lines|
    ensures result.Ok? ==> written == StripTerminators(body)
    ensures result.Err? ==> written == Concat(Lines(body)[..failingRead.value])
    ensures result.Err? ==> result.error == UnableToSaveArchive
  {
    written := [];
    ghost var lines := Lines(body);
    var pos := 0;
    var count := 0;
    while pos < |body|
      invariant 0 <= pos <= |body|
      invariant count <= |lines|
      invariant lines[count..] == LinesFrom(body, pos)
      invariant written == Concat(lines[..count])
      invariant failingRead.Some? ==> failingRead.value >= count
      decreases |body| - pos
    {
      if failingRead == Some(count) {
        return Err(UnableToSaveArchive), written;
      }
      assert failingRead.Some? ==> failingRead.value > count;
      var (line, next) := ReadLine(body, pos);
      CopyStep(body, pos, lines, count);
      written := written + line;
      count := count + 1;
      pos := next;
    }
    assert count == |lines|;
    if failingRead == Some(count) {
      return Err(UnableToSaveArchive), written;
    }
    assert lines[..count] == lines;
    LinesFromStrip(body, 0);
    result := Ok(());
  }
}
