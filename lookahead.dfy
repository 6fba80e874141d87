/** End of input and the one-token lookahead: what repeated `next` calls do
    once the source is used up, and how `peek` and `next` interact. */
module Lookahead {
  import opened Wrappers
  import opened Tokens
  import opened Positions
  import opened Scanning
  import opened Filtering

  /** A `next` with an empty slot at the end of the source reads zero bytes:
      it yields end of input, and the zeroed buffer still moves the column
      on by one. */
  lemma NextAtEnd(src: seq<Read>, st: LexState)
    requires st.pos == |src| && st.peeked == None
    ensures Next(src, st) == Outcome(Ok(None), st.(location := Location(st.location.line, st.location.column + 1)))
  {
  }

  /** After end of input, every further `next` yields end of input again,
      never a failure, and each of them moves the column on by one. */
  lemma {:induction false} EndOfInputIsFinal(src: seq<Read>, st: LexState, n: nat)
    requires st.pos <= |src| && Next(src, st).result == Ok(None)
    ensures var done := Next(src, st).state;
            var later := Repeat(src, done, n);
            && later == done.(location := Location(done.location.line, done.location.column + n))
            && Next(src, later).result == Ok(None)
    decreases n
  {
    var done := Next(src, st).state;
    if n > 0 {
      NextAtEnd(src, done);
      EndOfInputIsFinal(src, done, n - 1);
    }
  }

  /** The scanning loop that meets the end of a successful source after
      skipping bytes only: the last skipped byte, still in the buffer, gets
      the position update a second time. */
  lemma {:induction false} ScanStaleByte(bytes: seq<byte>, pos: nat, buf: byte, loc: Location)
    requires pos <= |bytes| && !InLanguage(buf)
    requires forall k :: pos <= k < |bytes| ==> !InLanguage(bytes[k])
    ensures Scan(Reads(bytes), pos, buf, loc)
         == Outcome(Ok(None), LexState(|bytes|, Advance(Walk(loc, bytes[pos..]),
                                                        if pos == |bytes| then buf else bytes[|bytes| - 1]), None))
    decreases |bytes| - pos
  {
    if pos < |bytes| {
      var b := bytes[pos];
      assert bytes[pos..][1..] == bytes[pos + 1..];
      ScanStaleByte(bytes, pos + 1, b, Advance(loc, b));
    }
  }

  /** `next` from an empty slot over a tail of skipped bytes: end of input,
      with the location after those bytes and one more update for the last. */
  lemma EndOfInputReappliesLastByte(bytes: seq<byte>, pos: nat, loc: Location)
    requires pos < |bytes|
    requires forall k :: pos <= k < |bytes| ==> !InLanguage(bytes[k])
    ensures Next(Reads(bytes), LexState(pos, loc, None))
         == Outcome(Ok(None), LexState(|bytes|, Advance(Walk(loc, bytes[pos..]), bytes[|bytes| - 1]), None))
  {
    ScanStaleByte(bytes, pos, NUL, loc);
  }

  /** In particular a trailing newline that `next` reads just before the end
      counts for two lines. */
  lemma TrailingNewlineCountsTwice(bytes: seq<byte>, loc: Location)
    requires |bytes| > 0 && bytes[|bytes| - 1] == NEWLINE
    ensures Next(Reads(bytes), LexState(|bytes| - 1, loc, None))
         == Outcome(Ok(None), LexState(|bytes|, Location(loc.line + 2, 1), None))
  {
    var pos := |bytes| - 1;
    EndOfInputReappliesLastByte(bytes, pos, loc);
    assert bytes[pos..] == [NEWLINE];
    assert Walk(loc, [NEWLINE]) == Walk(Advance(loc, NEWLINE), []);
  }

  /** `next` with a token in the slot returns it and empties the slot,
      without reading and without moving the location. */
  lemma NextTakesPeeked(src: seq<Read>, st: LexState)
    requires st.pos <= |src| && st.peeked.Some?
    ensures Next(src, st).result == Ok(st.peeked)
    ensures Next(src, st).state == LexState(st.pos, st.location, None)
  {
  }

  /** Two `peek`s in a row return the same; when the first found a token,
      the second reads nothing and changes nothing. */
  lemma PeekTwice(src: seq<Read>, st: LexState)
    requires st.pos <= |src|
    ensures var p := Peek(src, st);
            var q := Peek(src, p.state);
            && (p.result.Ok? ==> q.result == p.result)
            && (p.result.Ok? && p.result.value.Some? ==> q.state == p.state)
  {
  }

  /** `next` after `peek` returns what `peek` returned; when that was a
      token, the pair leaves the lexer exactly as one `next` alone would. */
  lemma PeekThenNext(src: seq<Read>, st: LexState)
    requires st.pos <= |src|
    ensures var p := Peek(src, st);
            var n := Next(src, p.state);
            && (p.result.Ok? ==> n.result == p.result)
            && (p.result.Ok? && p.result.value.Some? ==> n == Next(src, st))
  {
  }

  /** `peek` at the end of the source yields end of input and leaves the
      slot empty. */
  lemma PeekAtEnd(src: seq<Read>, st: LexState)
    requires st.pos == |src| && st.peeked == None
    ensures Peek(src, st).result == Ok(None)
    ensures Peek(src, st).state.peeked == None
  {
  }

  /** A failing read aborts the call: the failure reaches the caller and the
      lookahead slot stays empty. */
  lemma FailurePropagates(src: seq<Read>, st: LexState)
    requires st.pos <= |src| && st.peeked == None && Next(src, st).result.Err?
    ensures Peek(src, st) == Next(src, st)
    ensures Peek(src, st).state.peeked == None
    ensures src[Next(src, st).state.pos - 1] == Fault
  {
  }
}
