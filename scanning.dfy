/** The lexer as functions on its state: the scanning loop of `next`, the
    `next` and `peek` steps, and the token stream obtained by calling `next`
    until it yields nothing. The imperative classes in module Lexer are
    proved against these definitions. */
module Scanning {
  import opened Wrappers
  import opened Tokens

  /** What one call of the reader's `read` into a one-byte buffer produces:
      one byte, or an I/O failure. Once a source's script is used up, a
      read delivers zero bytes. */
  datatype Read = Byte(value: byte) | Fault

  /** The failure a `next` or `peek` call propagates. */
  datatype Error = ReadError

  /** The lexer's state apart from the fixed read script: the reader's
      cursor, the current location and the lookahead slot. */
  datatype LexState = LexState(pos: nat, location: Location, peeked: Option<Token>)

  /** The result of one `next` or `peek` call and the state after it. */
  datatype Outcome = Outcome(result: Result<Option<Token>, Error>, state: LexState)

  /** A lexer just built around a source whose cursor stands at `pos`. */
  function Fresh(pos: nat): (st: LexState)
    ensures st.location == Location.Default() && st.peeked == None && st.pos == pos
  {
    LexState(pos, Location.Default(), None)
  }

  /** A read entry that `next` consumes without producing a token. */
  predicate Skippable(r: Read) {
    r.Byte? && !InLanguage(r.value)
  }

  /** The scanning loop of `next`, at its head: `buf` is what the one-byte
      buffer holds, `pos` the reader's cursor and `loc` the location. The
      loop stops on an in-language byte in `buf`; otherwise it reads. A read
      at the end of the script leaves the stale `buf` in place, applies the
      position update to it and reports end of input. A failing read aborts
      the call without its own position update; the updates of the bytes
      skipped earlier in the same call remain. */
  function Scan(src: seq<Read>, pos: nat, buf: byte, loc: Location): (o: Outcome)
    requires pos <= |src|
    ensures o.state.peeked == None
    ensures pos <= o.state.pos <= |src|
    ensures o.result == Ok(None) ==> o.state.pos == |src|
    ensures o.result.Err? ==> pos < o.state.pos && src[o.state.pos - 1] == Fault
    ensures o.result.Ok? && o.result.value.Some? ==>
              var t := o.result.value.value;
              && InLanguage(t.symbol)
              && t.location == o.state.location
              && (if InLanguage(buf) then o.state.pos == pos && t.symbol == buf
                  else pos < o.state.pos && src[o.state.pos - 1] == Byte(t.symbol))
    ensures forall k :: pos <= k < o.state.pos - (if o.result == Ok(None) then 0 else 1) ==>
              Skippable(src[k])
    decreases |src| - pos
  {
    if InLanguage(buf) then
      Outcome(Ok(Some(Token(buf, loc))), LexState(pos, loc, None))
    else if pos == |src| then
      Outcome(Ok(None), LexState(pos, Advance(loc, buf), None))
    else
      match src[pos]
      case Fault => Outcome(Err(ReadError), LexState(pos + 1, loc, None))
      case Byte(b) => Scan(src, pos + 1, b, Advance(loc, b))
  }

  /** `Lexer::next`: hand out the lookahead token if there is one (reading
      nothing and leaving the location alone), otherwise run the scanning
      loop with a zeroed buffer. */
  function Next(src: seq<Read>, st: LexState): (o: Outcome)
    requires st.pos <= |src|
    ensures o.state.peeked == None
    ensures st.pos <= o.state.pos <= |src|
    ensures st.peeked.Some? ==> o.result == Ok(st.peeked) && o.state == st.(peeked := None)
    ensures st.peeked.None? && o.result.Ok? && o.result.value.Some? ==>
              st.pos < o.state.pos && src[o.state.pos - 1] == Byte(o.result.value.value.symbol)
    ensures o.result == Ok(None) ==> st.peeked == None && o.state.pos == |src|
  {
    if st.peeked.Some? then
      Outcome(Ok(st.peeked), st.(peeked := None))
    else
      Scan(src, st.pos, NUL, st.location)
  }

  /** `Lexer::peek`: return the lookahead token if there is one; otherwise
      fill the slot with what `next` yields. A failing `next` propagates
      and leaves the slot as it was, empty. */
  function Peek(src: seq<Read>, st: LexState): (o: Outcome)
    requires st.pos <= |src|
    ensures st.pos <= o.state.pos <= |src|
    ensures st.peeked.Some? ==> o == Outcome(Ok(st.peeked), st)
    ensures o.result.Ok? ==> o.state.peeked == o.result.value
    ensures o.result.Err? ==> o.state.peeked == None
  {
    if st.peeked.Some? then
      Outcome(Ok(st.peeked), st)
    else
      var o := Next(src, st);
      match o.result
      case Err(_) => o
      case Ok(t) => Outcome(Ok(t), o.state.(peeked := t))
  }

  /** The tokens that repeated `next` calls return, up to the first call
      that yields end of input or fails. */
  function Drain(src: seq<Read>, st: LexState): seq<Token>
    requires st.pos <= |src|
    decreases |src| - st.pos, st.peeked.Some?
  {
    var o := Next(src, st);
    match o.result
    case Ok(Some(t)) => [t] + Drain(src, o.state)
    case _ => []
  }

  /** `n` further `next` calls, returning the state after them. */
  function Repeat(src: seq<Read>, st: LexState, n: nat): (st': LexState)
    requires st.pos <= |src|
    ensures st'.pos <= |src|
    decreases n
  {
    if n == 0 then st else Repeat(src, Next(src, st).state, n - 1)
  }
}
