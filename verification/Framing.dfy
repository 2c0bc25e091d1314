/** Bounded NDJSON line reading on the ingress
    (services/pool-verifier/src/ingress.rs, read_bounded_line and its loop).
    `utf8` is the validity test read_line applies to the bytes it took. */
module Framing {
  import opened Base
  import opened BitcoindRpc

  const NEWLINE: Byte := 10

  datatype BoundedLine = Line | Eof | OverLimit | BadText

  // How many bytes one read takes: through the first newline, or all there
  // are, but never more than the budget.
  function Extent(stream: seq<Byte>, budget: nat): nat
  {
    if budget == 0 || stream == [] then 0
    else if stream[0] == NEWLINE then 1
    else 1 + Extent(stream[1..], budget - 1)
  }

  lemma {:induction false} ExtentIs(stream: seq<Byte>, budget: nat)
    ensures var n := Extent(stream, budget);
            && n <= |stream| && n <= budget
            && (forall i :: 0 <= i < n - 1 ==> stream[i] != NEWLINE)
            && (n > 0 && stream[n - 1] != NEWLINE ==> n == Min(budget, |stream|))
            && (n == 0 <==> budget == 0 || stream == [])
  {
    if budget > 0 && stream != [] && stream[0] != NEWLINE {
      ExtentIs(stream[1..], budget - 1);
      var n := Extent(stream, budget);
      assert forall i :: 1 <= i < n ==> stream[i] == stream[1..][i - 1];
    }
  }

  // What read_bounded_line reports, and the bytes it took.
  function ReadLine(utf8: seq<Byte> -> bool, stream: seq<Byte>, budget: nat): (r: (BoundedLine, seq<Byte>))
    ensures r.1 <= stream && (r.0 == Line ==> r.1 != [])
  {
    ExtentIs(stream, budget);
    var taken := stream[..Extent(stream, budget)];
    if !utf8(taken) then (BadText, taken)
    else if taken == [] then (Eof, taken)
    else if |taken| >= budget && taken[|taken| - 1] != NEWLINE then (OverLimit, taken)
    else (Line, taken)
  }

  ghost predicate NewlineFree(bytes: seq<Byte>)
  {
    forall i :: 0 <= i < |bytes| ==> bytes[i] != NEWLINE
  }

  // The whole verdict of one read, by what lies ahead on the stream. The
  // over-limit verdict arises exactly when a budget's worth of bytes is
  // there with no newline in it (and decodes as text).
  lemma ReadLineExactly(utf8: seq<Byte> -> bool, stream: seq<Byte>, budget: nat)
    requires budget > 0 && utf8([])
    ensures var (r, taken) := ReadLine(utf8, stream, budget);
            && taken <= stream && |taken| <= budget
            && (taken != [] ==> NewlineFree(taken[..|taken| - 1]))
            && (taken == [] || taken[|taken| - 1] != NEWLINE ==> |taken| == Min(budget, |stream|))
            && (r == Eof <==> stream == [])
            && (r == OverLimit <==>
                  |stream| >= budget && NewlineFree(stream[..budget]) && utf8(stream[..budget]))
            && (r == BadText <==> !utf8(taken))
            && (r == Line ==> taken != [] && NewlineFree(taken[..|taken| - 1])
                              && (taken[|taken| - 1] == NEWLINE || taken == stream))
  {
    ExtentIs(stream, budget);
    var n := Extent(stream, budget);
    if |stream| >= budget && NewlineFree(stream[..budget]) {
      assert n > 0 && stream[n - 1] == stream[..budget][n - 1];
    }
  }

  // ---- The connection's read loop ----

  datatype Session = Session(lines: seq<seq<Byte>>, end: BoundedLine)

  // Every line the loop dispatches, and what ended it.
  function ReadAll(utf8: seq<Byte> -> bool, stream: seq<Byte>, budget: nat): Session
    decreases |stream|
  {
    var (r, taken) := ReadLine(utf8, stream, budget);
    if r != Line then Session([], r)
    else
      var rest := ReadAll(utf8, stream[|taken|..], budget);
      Session([taken] + rest.lines, rest.end)
  }

  method ReadLoop(utf8: seq<Byte> -> bool, stream: seq<Byte>, budget: nat) returns (s: Session)
    ensures s == ReadAll(utf8, stream, budget)
  {
    hide ReadLine;
    var lines: seq<seq<Byte>> := [];
    var ahead := stream;
    while true
      invariant ReadAll(utf8, stream, budget)
             == Session(lines + ReadAll(utf8, ahead, budget).lines, ReadAll(utf8, ahead, budget).end)
      decreases |ahead|
    {
      var (r, taken) := ReadLine(utf8, ahead, budget);
      if r != Line {
        assert lines + [] == lines;
        return Session(lines, r);
      }
      ghost var rest := ReadAll(utf8, ahead[|taken|..], budget);
      assert lines + ([taken] + rest.lines) == (lines + [taken]) + rest.lines;
      lines := lines + [taken];
      ahead := ahead[|taken|..];
    }
  }

  function Concat(lines: seq<seq<Byte>>): seq<Byte>
  {
    if lines == [] then [] else lines[0] + Concat(lines[1..])
  }

  // A whole line as it was taken: no newline but at its end, within the
  // budget, and readable as text.
  ghost predicate WholeLine(utf8: seq<Byte> -> bool, line: seq<Byte>, budget: nat)
  {
    0 < |line| <= budget && NewlineFree(line[..|line| - 1]) && utf8(line)
  }

  ghost predicate Ends(line: seq<Byte>)
  {
    line != [] && line[|line| - 1] == NEWLINE
  }

  // Why a session stopped, by what was left: nothing, or a budget's worth of
  // text with no newline, or bytes that are not text.
  ghost predicate StoppedBy(utf8: seq<Byte> -> bool, left: seq<Byte>, budget: nat, end: BoundedLine)
  {
    match end
    case Line => false
    case Eof => left == []
    case OverLimit => |left| >= budget && NewlineFree(left[..budget]) && utf8(left[..budget])
    case BadText => left != [] && !utf8(ReadLine(utf8, left, budget).1)
  }

  // On any stream: nothing is lost, reordered or invented; every line but
  // the last is newline-terminated, and a last one that is not ends the
  // stream; and the session stops where the rest says it must.
  lemma {:induction false} SessionFaithful(utf8: seq<Byte> -> bool, stream: seq<Byte>, budget: nat)
    requires budget > 0 && utf8([])
    ensures var s := ReadAll(utf8, stream, budget);
            && Concat(s.lines) <= stream
            && (s.end == Eof ==> Concat(s.lines) == stream)
            && StoppedBy(utf8, stream[|Concat(s.lines)|..], budget, s.end)
            && (forall i :: 0 <= i < |s.lines| ==> WholeLine(utf8, s.lines[i], budget))
            && (forall i :: 0 <= i < |s.lines| - 1 ==> Ends(s.lines[i]))
            && (s.lines != [] && !Ends(s.lines[|s.lines| - 1]) ==> s.end == Eof)
    decreases |stream|
  {
    hide ReadLine, ReadAll, Concat, StoppedBy, WholeLine, Ends;
    var (r, taken) := ReadLine(utf8, stream, budget);
    if r == Line {
      var ahead := stream[|taken|..];
      assert stream == taken + ahead;
      SessionFaithful(utf8, ahead, budget);
      SessionNext(utf8, stream, budget, taken, ahead);
      ReadAllNext(utf8, stream, budget, taken, ahead);
      ConcatNext(taken, ReadAll(utf8, ahead, budget).lines);
      PrefixNext(taken, ahead, Concat(ReadAll(utf8, ahead, budget).lines));
      var lines, rest := ReadAll(utf8, stream, budget).lines, ReadAll(utf8, ahead, budget).lines;
      assert lines[0] == taken && forall i :: 1 <= i < |lines| ==> lines[i] == rest[i - 1];
    } else {
      SessionStops(utf8, stream, budget);
    }
  }

  lemma {:induction false} SessionStops(utf8: seq<Byte> -> bool, stream: seq<Byte>, budget: nat)
    requires budget > 0 && utf8([]) && ReadLine(utf8, stream, budget).0 != Line
    ensures ReadAll(utf8, stream, budget) == Session([], ReadLine(utf8, stream, budget).0)
    ensures Concat([]) == [] && StoppedBy(utf8, stream[0..], budget, ReadLine(utf8, stream, budget).0)
    ensures ReadLine(utf8, stream, budget).0 == Eof ==> stream == []
  {
    hide ReadLine;
    ReadLineExactly(utf8, stream, budget);
    assert stream[0..] == stream;
  }

  // One line more in front.
  lemma {:induction false} ReadAllNext(utf8: seq<Byte> -> bool, stream: seq<Byte>, budget: nat, taken: seq<Byte>,
                                       ahead: seq<Byte>)
    requires ReadLine(utf8, stream, budget) == (Line, taken) && stream == taken + ahead
    ensures ReadAll(utf8, stream, budget)
         == Session([taken] + ReadAll(utf8, ahead, budget).lines, ReadAll(utf8, ahead, budget).end)
  {
    hide ReadLine;
    assert stream[|taken|..] == ahead;
  }

  lemma {:induction false} PrefixNext(taken: seq<Byte>, ahead: seq<Byte>, more: seq<Byte>)
    requires more <= ahead
    ensures taken + more <= taken + ahead
    ensures (taken + ahead)[|taken + more|..] == ahead[|more|..]
  {
    var left := ahead[|more|..];
    assert ahead == more + left;
    assert taken + ahead == (taken + more) + left;
  }

  lemma {:induction false} SessionNext(utf8: seq<Byte> -> bool, stream: seq<Byte>, budget: nat, taken: seq<Byte>,
                                       ahead: seq<Byte>)
    requires budget > 0 && utf8([]) && ReadLine(utf8, stream, budget) == (Line, taken) && stream == taken + ahead
    ensures WholeLine(utf8, taken, budget) && (Ends(taken) || ahead == [])
    ensures ahead == [] ==> ReadAll(utf8, ahead, budget) == Session([], Eof)
  {
    ReadLineExactly(utf8, stream, budget);
    ReadLineExactly(utf8, ahead, budget);
    hide ReadLine, NewlineFree;
  }

  lemma ConcatNext(line: seq<Byte>, lines: seq<seq<Byte>>)
    ensures Concat([line] + lines) == line + Concat(lines)
  {
    assert ([line] + lines)[1..] == lines;
  }

  function Terminated(lines: seq<seq<Byte>>): seq<seq<Byte>>
  {
    seq(|lines|, i requires 0 <= i < |lines| => lines[i] + [NEWLINE])
  }

  lemma {:induction false} ReadTerminated(utf8: seq<Byte> -> bool, line: seq<Byte>, rest: seq<Byte>, budget: nat)
    requires NewlineFree(line) && |line| < budget && utf8(line + [NEWLINE])
    ensures ReadLine(utf8, line + [NEWLINE] + rest, budget) == (Line, line + [NEWLINE])
  {
    var stream := line + [NEWLINE] + rest;
    ExtentIs(stream, budget);
    var n := Extent(stream, budget);
    assert stream[|line|] == NEWLINE && forall i :: 0 <= i < |line| ==> stream[i] == line[i];
    assert n == |line| + 1;
    assert stream[..n] == line + [NEWLINE];
  }

  // How a session ends on what is left after the last whole line.
  function Tail(utf8: seq<Byte> -> bool, tail: seq<Byte>, budget: nat): Session
  {
    if tail == [] then Session([], Eof)
    else if |tail| < budget then if utf8(tail) then Session([tail], Eof) else Session([], BadText)
    else if utf8(tail[..budget]) then Session([], OverLimit) else Session([], BadText)
  }

  lemma {:induction false} ReadTail(utf8: seq<Byte> -> bool, tail: seq<Byte>, budget: nat)
    requires utf8([]) && budget > 0 && NewlineFree(tail)
    ensures ReadAll(utf8, tail, budget) == Tail(utf8, tail, budget)
  {
    ExtentIs(tail, budget);
    assert Extent(tail, budget) == Min(budget, |tail|);
    assert tail[..|tail|] == tail;
    if tail != [] && |tail| < budget && utf8(tail) {
      assert ReadLine(utf8, tail, budget) == (Line, tail);
      assert tail[|tail|..] == [];
      assert ReadAll(utf8, [], budget) == Session([], Eof) by {
        ExtentIs([], budget);
      }
      assert [tail] + [] == [tail];
    }
  }

  // Round trip: newline-free lines shorter than the budget, written
  // newline-terminated, come back exactly; what follows the last newline is
  // one more line at the end of the stream, or too long, or not text.
  lemma {:induction false} FramingRoundTrip(utf8: seq<Byte> -> bool, lines: seq<seq<Byte>>, tail: seq<Byte>,
                                            budget: nat)
    requires utf8([]) && budget > 0 && NewlineFree(tail)
    requires forall i :: 0 <= i < |lines| ==>
               NewlineFree(lines[i]) && |lines[i]| < budget && utf8(lines[i] + [NEWLINE])
    ensures ReadAll(utf8, Concat(Terminated(lines)) + tail, budget)
         == Session(Terminated(lines) + Tail(utf8, tail, budget).lines, Tail(utf8, tail, budget).end)
  {
    hide ReadLine, Tail, NewlineFree;
    var framed := Terminated(lines);
    if lines == [] {
      ReadTail(utf8, tail, budget);
      assert Concat(framed) + tail == tail;
      assert framed + Tail(utf8, tail, budget).lines == Tail(utf8, tail, budget).lines;
    } else {
      FramingRoundTrip(utf8, lines[1..], tail, budget);
      assert framed[1..] == Terminated(lines[1..]);
      var rest := Concat(framed[1..]) + tail;
      assert Concat(framed) + tail == lines[0] + [NEWLINE] + rest;
      ReadTerminated(utf8, lines[0], rest, budget);
      assert (lines[0] + [NEWLINE] + rest)[|framed[0]|..] == rest;
      assert [framed[0]] + (framed[1..] + Tail(utf8, tail, budget).lines) == framed + Tail(utf8, tail, budget).lines;
    }
  }
}
