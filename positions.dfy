/** Position arithmetic: the location after a run of bytes, both as the
    byte-by-byte fold that the lexer performs and in closed form (line =
    1 + number of newlines, column = 1 + bytes since the last newline). */
module Positions {
  import opened Tokens

  /** The location reached from `loc` by reading the bytes `bs` one by one. */
  function Walk(loc: Location, bs: seq<byte>): Location
    decreases |bs|
  {
    if bs == [] then loc else Walk(Advance(loc, bs[0]), bs[1..])
  }

  /** The number of newline bytes in `bs`. */
  function Newlines(bs: seq<byte>): nat {
    if bs == [] then 0
    else Newlines(bs[..|bs| - 1]) + (if bs[|bs| - 1] == NEWLINE then 1 else 0)
  }

  /** The index just after the last newline of `bs`, or 0 if there is none. */
  function LineStart(bs: seq<byte>): (k: nat)
    ensures k <= |bs|
    ensures k == 0 || bs[k - 1] == NEWLINE
    ensures forall j :: k <= j < |bs| ==> bs[j] != NEWLINE
  {
    if bs == [] then 0
    else if bs[|bs| - 1] == NEWLINE then |bs|
    else LineStart(bs[..|bs| - 1])
  }

  /** Loose lexicographic order: `a` is `b` or comes before it. */
  predicate NotAfter(a: Location, b: Location) {
    a == b || a.Before(b)
  }

  /** One read step moves the location strictly forward. */
  lemma AdvanceMovesForward(loc: Location, b: byte)
    ensures loc.Before(Advance(loc, b))
  {
  }

  /** Reading one more byte is one more read step. */
  lemma {:induction false} WalkSnoc(loc: Location, bs: seq<byte>, b: byte)
    ensures Walk(loc, bs + [b]) == Advance(Walk(loc, bs), b)
    decreases |bs|
  {
    if bs == [] {
      assert [] + [b] == [b];
      assert [b][1..] == [];
    } else {
      assert (bs + [b])[1..] == bs[1..] + [b];
      WalkSnoc(Advance(loc, bs[0]), bs[1..], b);
    }
  }

  /** The location after the first |bs| bytes of a file, in closed form. */
  lemma {:induction false} WalkClosedForm(bs: seq<byte>)
    ensures Walk(Location.Default(), bs) == Location(1 + Newlines(bs), 1 + |bs| - LineStart(bs))
    decreases |bs|
  {
    if bs != [] {
      var init, last := bs[..|bs| - 1], bs[|bs| - 1];
      assert bs == init + [last];
      WalkClosedForm(init);
      WalkSnoc(Location.Default(), init, last);
    }
  }

  /** Reading at least one byte always moves the location strictly forward. */
  lemma {:induction false} WalkMovesForward(loc: Location, bs: seq<byte>)
    ensures NotAfter(loc, Walk(loc, bs))
    ensures bs != [] ==> loc.Before(Walk(loc, bs))
    decreases |bs|
  {
    if bs != [] {
      AdvanceMovesForward(loc, bs[0]);
      WalkMovesForward(Advance(loc, bs[0]), bs[1..]);
    }
  }
}
