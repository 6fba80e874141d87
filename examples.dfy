/** Concrete sources and the tokens the lexer gives for them. The locations
    follow the lexer's convention of stamping after the column update, so
    the first byte of a line is at column 2. */
module Examples {
  import opened Wrappers
  import opened Tokens
  import opened Scanning
  import opened Filtering

  /** `+` as the very first byte of a file is stamped (1, 2). */
  lemma FirstByteIsColumnTwo()
    ensures Next(Reads([PLUS]), Fresh(0)).result == Ok(Some(Token(PLUS, Location(1, 2))))
  {
    var src := Reads([PLUS]);
    assert src[0] == Byte(PLUS);
    assert Scan(src, 1, PLUS, Location(1, 2)).result == Ok(Some(Token(PLUS, Location(1, 2))));
    assert Scan(src, 0, NUL, Location(1, 1)) == Scan(src, 1, PLUS, Location(1, 2));
  }

  /** One step of the left-to-right walk. */
  lemma StampStep(loc: Location, b: byte, rest: seq<byte>)
    ensures StampFrom(loc, [b] + rest)
         == (if InLanguage(b) then [Token(b, Advance(loc, b))] else []) + StampFrom(Advance(loc, b), rest)
  {
    assert ([b] + rest)[1..] == rest;
  }

  /** `+[>,.]` newline `-`: seven tokens; the newline is skipped but moves
      `-` to line 2. */
  lemma SmallProgram()
    ensures Drain(Reads([PLUS, OPEN, GREATER, COMMA, DOT, CLOSE, NEWLINE, MINUS]), Fresh(0))
         == [Token(PLUS, Location(1, 2)), Token(OPEN, Location(1, 3)), Token(GREATER, Location(1, 4)),
             Token(COMMA, Location(1, 5)), Token(DOT, Location(1, 6)), Token(CLOSE, Location(1, 7)),
             Token(MINUS, Location(2, 2))]
  {
    var bs := [PLUS, OPEN, GREATER, COMMA, DOT, CLOSE, NEWLINE, MINUS];
    Lexes(bs);
    ExpectedIsStamp(bs);
    SmallProgramStamps();
  }

  lemma SmallProgramStamps()
    ensures StampFrom(Location.Default(), [PLUS, OPEN, GREATER, COMMA, DOT, CLOSE, NEWLINE, MINUS])
         == [Token(PLUS, Location(1, 2)), Token(OPEN, Location(1, 3)), Token(GREATER, Location(1, 4)),
             Token(COMMA, Location(1, 5)), Token(DOT, Location(1, 6)), Token(CLOSE, Location(1, 7)),
             Token(MINUS, Location(2, 2))]
  {
    var s7: seq<byte> := [MINUS];
    var s6 := [NEWLINE] + s7;
    var s5 := [CLOSE] + s6;
    var s4 := [DOT] + s5;
    var s3 := [COMMA] + s4;
    var s2 := [GREATER] + s3;
    var s1 := [OPEN] + s2;
    var s0 := [PLUS] + s1;
    StampStep(Location(2, 1), MINUS, []);
    StampStep(Location(1, 7), NEWLINE, s7);
    StampStep(Location(1, 6), CLOSE, s6);
    StampStep(Location(1, 5), DOT, s5);
    StampStep(Location(1, 4), COMMA, s4);
    StampStep(Location(1, 3), GREATER, s3);
    StampStep(Location(1, 2), OPEN, s2);
    StampStep(Location(1, 1), PLUS, s1);
    assert [MINUS] + [] == s7;
    assert s0 == [PLUS, OPEN, GREATER, COMMA, DOT, CLOSE, NEWLINE, MINUS];
  }

  /** `hello+world`: the letters are skipped, each still moving the column,
      so the single token `+` is at column 7. */
  lemma CommentAround()
    ensures Drain(Reads([104, 101, 108, 108, 111, PLUS, 119, 111, 114, 108, 100]), Fresh(0))
         == [Token(PLUS, Location(1, 7))]
  {
    var bs: seq<byte> := [104, 101, 108, 108, 111, PLUS, 119, 111, 114, 108, 100];
    Lexes(bs);
    ExpectedIsStamp(bs);
    CommentAroundStamps();
  }

  lemma CommentAroundStamps()
    ensures StampFrom(Location.Default(), [104, 101, 108, 108, 111, PLUS, 119, 111, 114, 108, 100])
         == [Token(PLUS, Location(1, 7))]
  {
    var s6: seq<byte> := [119, 111, 114, 108, 100];
    var s5 := [PLUS] + s6;
    var s4 := [111] + s5;
    var s3 := [108] + s4;
    var s2 := [108] + s3;
    var s1 := [101] + s2;
    var s0 := [104] + s1;
    WorldIsSkipped();
    StampStep(Location(1, 6), PLUS, s6);
    StampStep(Location(1, 5), 111, s5);
    StampStep(Location(1, 4), 108, s4);
    StampStep(Location(1, 3), 108, s3);
    StampStep(Location(1, 2), 101, s2);
    StampStep(Location(1, 1), 104, s1);
    assert s0 == [104, 101, 108, 108, 111, PLUS, 119, 111, 114, 108, 100];
  }

  /** The trailing `world` of `hello+world` yields no token. */
  lemma WorldIsSkipped()
    ensures StampFrom(Location(1, 7), [119, 111, 114, 108, 100]) == []
  {
    var s4: seq<byte> := [100];
    var s3 := [108] + s4;
    var s2 := [114] + s3;
    var s1 := [111] + s2;
    StampStep(Location(1, 11), 100, []);
    StampStep(Location(1, 10), 108, s4);
    StampStep(Location(1, 9), 114, s3);
    StampStep(Location(1, 8), 111, s2);
    StampStep(Location(1, 7), 119, s1);
    assert [100] + [] == s4;
    assert [119] + s1 == [119, 111, 114, 108, 100];
  }

  /** A read that fails after a skipped byte: the failure is returned, the
      failing read adds no position update, and the skipped byte's update
      stays. */
  lemma FailureAfterSkippedByte()
    ensures Next([Byte(97), Fault], Fresh(0)) == Outcome(Err(ReadError), LexState(2, Location(1, 2), None))
  {
    assert Scan([Byte(97), Fault], 0, NUL, Location(1, 1)) == Scan([Byte(97), Fault], 1, 97, Location(1, 2));
  }

  /** The empty source: `next` and `peek` both yield end of input. */
  lemma EmptySource()
    ensures Next([], Fresh(0)).result == Ok(None)
    ensures Peek([], Fresh(0)).result == Ok(None)
    ensures Peek([], Peek([], Fresh(0)).state).result == Ok(None)
  {
  }
}
