/** The lexer as an object: a byte reader it owns, a location it updates in
    place and a one-token lookahead slot. Each method is proved to do what
    the corresponding function of module Scanning describes. */
module Lexer {
  import opened Wrappers
  import opened Tokens
  import opened Scanning

  /** An in-memory byte reader: a fixed script of read outcomes and a read
      cursor. */
  class Source {
    const script: seq<Read>
    var cursor: nat

    ghost predicate Valid()
      reads this
    {
      cursor <= |script|
    }

    constructor (script: seq<Read>)
      ensures Valid() && this.script == script && cursor == 0
    {
      this.script := script;
      cursor := 0;
    }

    /** `Read::read` into a one-byte buffer: the number of bytes delivered
        (0 at the end of the script, buffer untouched; 1 with the byte in
        `buf[0]`), or a failure that leaves the buffer untouched. */
    method Read(buf: array<byte>) returns (r: Result<nat, Error>)
      requires Valid() && buf.Length == 1
      modifies this, buf
      ensures Valid()
      ensures old(cursor) == |script| ==> r == Ok(0) && cursor == old(cursor) && buf[0] == old(buf[0])
      ensures old(cursor) < |script| ==>
                && cursor == old(cursor) + 1
                && match script[old(cursor)]
                   case Byte(b) => r == Ok(1) && buf[0] == b
                   case Fault => r == Err(ReadError) && buf[0] == old(buf[0])
    {
      if cursor == |script| {
        return Ok(0);
      }
      var entry := script[cursor];
      cursor := cursor + 1;
      match entry
      case Byte(b) =>
        buf[0] := b;
        r := Ok(1);
      case Fault =>
        r := Err(ReadError);
    }
  }

  class Lexer {
    const source: Source
    var location: Location
    var peeked: Option<Token>

    ghost predicate Valid()
      reads this, source
    {
      source.Valid()
    }

    /** The lexer's state in the terms of module Scanning. */
    ghost function State(): LexState
      reads this, source
    {
      LexState(source.cursor, location, peeked)
    }

    /** `Lexer::new`: location (1, 1), an empty slot, the reader untouched. */
    constructor (source: Source)
      requires source.Valid()
      ensures Valid() && this.source == source
      ensures State() == Fresh(source.cursor)
      ensures unchanged(source)
    {
      this.source := source;
      location := Location.Default();
      peeked := None;
    }

    /** `Lexer::next`. */
    method Next() returns (r: Result<Option<Token>, Error>)
      requires Valid()
      modifies this, source
      ensures Valid()
      ensures Outcome(r, State()) == Scanning.Next(source.script, old(State()))
    {
      if peeked.Some? {
        r := Ok(peeked);
        peeked := None;
        return;
      }
      ghost var goal := Scan(source.script, source.cursor, NUL, location);
      var buf := new byte[1](_ => NUL);
      while !InLanguage(buf[0])
        invariant Valid() && peeked == None
        invariant Scan(source.script, source.cursor, buf[0], location) == goal
        decreases |source.script| - source.cursor
      {
        ghost var before := location;
        var n :- source.Read(buf);
        location := location.(column := location.column + 1);
        if buf[0] == NEWLINE {
          location := Location(location.line + 1, 1);
        }
        assert location == Advance(before, buf[0]);
        if n != 1 {
          return Ok(None);
        }
      }
      r := Ok(Some(Token(buf[0], location)));
    }

    /** `Lexer::peek`. */
    method Peek() returns (r: Result<Option<Token>, Error>)
      requires Valid()
      modifies this, source
      ensures Valid()
      ensures Outcome(r, State()) == Scanning.Peek(source.script, old(State()))
    {
      if peeked.Some? {
        return Ok(peeked);
      }
      var t :- Next();
      peeked := t;
      r := Ok(peeked);
    }
  }
}
