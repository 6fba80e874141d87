/** What the whole token stream is: on a source whose reads all succeed,
    the `next` calls of a fresh lexer return exactly the in-language bytes
    of the source, in order, each stamped with the location reached after
    reading it. */
module Filtering {
  import opened Wrappers
  import opened Tokens
  import opened Positions
  import opened Scanning

  /** The read script of an in-memory source holding `bytes`. */
  function Reads(bytes: seq<byte>): (src: seq<Read>)
    ensures |src| == |bytes|
    ensures forall k :: 0 <= k < |bytes| ==> src[k] == Byte(bytes[k])
  {
    seq(|bytes|, k requires 0 <= k < |bytes| => Byte(bytes[k]))
  }

  /** The in-language bytes of `bs`, in order. */
  function Filter(bs: seq<byte>): seq<byte> {
    if bs == [] then []
    else Filter(bs[..|bs| - 1]) + (if InLanguage(bs[|bs| - 1]) then [bs[|bs| - 1]] else [])
  }

  /** The symbols of a token sequence. */
  function Symbols(ts: seq<Token>): (r: seq<byte>)
    ensures |r| == |ts| && forall i :: 0 <= i < |ts| ==> r[i] == ts[i].symbol
  {
    seq(|ts|, i requires 0 <= i < |ts| => ts[i].symbol)
  }

  /** The intended token stream of a file `bs`: one token per in-language
      byte, in source order, each stamped with the location after the file's
      bytes up to and including it. */
  function Expected(bs: seq<byte>): seq<Token> {
    if bs == [] then []
    else
      Expected(bs[..|bs| - 1])
      + (if InLanguage(bs[|bs| - 1]) then [Token(bs[|bs| - 1], Walk(Location.Default(), bs))] else [])
  }

  /** The tokens produced while walking `bs` from `loc`, left to right. */
  function StampFrom(loc: Location, bs: seq<byte>): seq<Token>
    decreases |bs|
  {
    if bs == [] then []
    else
      var next := Advance(loc, bs[0]);
      (if InLanguage(bs[0]) then [Token(bs[0], next)] else []) + StampFrom(next, bs[1..])
  }

  lemma {:induction false} StampSnoc(loc: Location, bs: seq<byte>, b: byte)
    ensures StampFrom(loc, bs + [b])
         == StampFrom(loc, bs) + (if InLanguage(b) then [Token(b, Walk(loc, bs + [b]))] else [])
    decreases |bs|
  {
    if bs == [] {
      assert [] + [b] == [b];
      assert [b][1..] == [];
    } else {
      assert (bs + [b])[1..] == bs[1..] + [b];
      StampSnoc(Advance(loc, bs[0]), bs[1..], b);
    }
  }

  lemma {:induction false} ExpectedIsStamp(bs: seq<byte>)
    ensures Expected(bs) == StampFrom(Location.Default(), bs)
    decreases |bs|
  {
    if bs != [] {
      var init, last := bs[..|bs| - 1], bs[|bs| - 1];
      assert bs == init + [last];
      ExpectedIsStamp(init);
      StampSnoc(Location.Default(), init, last);
    }
  }

  /** One run of the scanning loop over a successful source consumes the
      bytes up to and including the next in-language one, and produces
      exactly the first token of what is left. */
  lemma {:induction false} ScanStamp(bytes: seq<byte>, pos: nat, buf: byte, loc: Location)
    requires pos <= |bytes| && !InLanguage(buf)
    ensures var o := Scan(Reads(bytes), pos, buf, loc);
            && o.result.Ok?
            && StampFrom(loc, bytes[pos..])
               == match o.result.value
                  case None => []
                  case Some(t) => [t] + StampFrom(o.state.location, bytes[o.state.pos..])
    decreases |bytes| - pos
  {
    if pos < |bytes| {
      var b := bytes[pos];
      assert bytes[pos..][1..] == bytes[pos + 1..];
      if !InLanguage(b) {
        ScanStamp(bytes, pos + 1, b, Advance(loc, b));
      }
    }
  }

  /** Calling `next` until it yields nothing, from an empty slot at any
      point of a successful source. */
  lemma {:induction false} DrainStamp(bytes: seq<byte>, pos: nat, loc: Location)
    requires pos <= |bytes|
    ensures Drain(Reads(bytes), LexState(pos, loc, None)) == StampFrom(loc, bytes[pos..])
    decreases |bytes| - pos
  {
    var o := Next(Reads(bytes), LexState(pos, loc, None));
    ScanStamp(bytes, pos, NUL, loc);
    if o.result.value.Some? {
      DrainStamp(bytes, o.state.pos, o.state.location);
    }
  }

  /** The token stream of a fresh lexer over a successful source is the
      intended one. */
  lemma Lexes(bytes: seq<byte>)
    ensures Drain(Reads(bytes), Fresh(0)) == Expected(bytes)
  {
    DrainStamp(bytes, 0, Location.Default());
    ExpectedIsStamp(bytes);
    assert bytes[0..] == bytes;
  }

  /** The intended stream carries exactly the in-language bytes, in order. */
  lemma {:induction false} ExpectedSymbols(bs: seq<byte>)
    ensures Symbols(Expected(bs)) == Filter(bs)
    decreases |bs|
  {
    if bs != [] {
      ExpectedSymbols(bs[..|bs| - 1]);
    }
  }

  /** Every token of the intended stream comes from an in-language byte of
      the file, stamped with the location after that byte; and every
      in-language byte of the file gives such a token. */
  lemma {:induction false} ExpectedMembers(bs: seq<byte>)
    ensures forall t :: t in Expected(bs) ==>
              exists k :: 0 <= k < |bs| && InLanguage(bs[k]) && t == Token(bs[k], Walk(Location.Default(), bs[..k + 1]))
    ensures forall k :: 0 <= k < |bs| && InLanguage(bs[k]) ==>
              Token(bs[k], Walk(Location.Default(), bs[..k + 1])) in Expected(bs)
    decreases |bs|
  {
    if bs != [] {
      var init := bs[..|bs| - 1];
      ExpectedMembers(init);
      assert bs[..|bs|] == bs;
      forall k | 0 <= k < |init| ensures init[k] == bs[k] && init[..k + 1] == bs[..k + 1] {
      }
    }
  }

  /** The intended stream's locations increase strictly from token to token. */
  lemma {:induction false} ExpectedOrdered(bs: seq<byte>)
    ensures forall t :: t in Expected(bs) ==> NotAfter(t.location, Walk(Location.Default(), bs))
    ensures forall i, j :: 0 <= i < j < |Expected(bs)| ==>
              Expected(bs)[i].location.Before(Expected(bs)[j].location)
    decreases |bs|
  {
    if bs != [] {
      var init, last := bs[..|bs| - 1], bs[|bs| - 1];
      assert bs == init + [last];
      ExpectedOrdered(init);
      WalkSnoc(Location.Default(), init, last);
      AdvanceMovesForward(Walk(Location.Default(), init), last);
    }
  }

  /** A source with no in-language byte yields end of input on the first
      `next`. */
  lemma NoSymbolsNoTokens(bytes: seq<byte>)
    requires forall k :: 0 <= k < |bytes| ==> !InLanguage(bytes[k])
    ensures Next(Reads(bytes), Fresh(0)).result == Ok(None)
  {
  }
}
