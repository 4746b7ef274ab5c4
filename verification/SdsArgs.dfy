/** The loops of sdscatrepr and sdssplitargs. */
module SdsArgs {
  import opened Wrappers
  import opened SdsHeader
  import opened Sds
  import opened SdsQuoting

  /** sdscatrepr appends the quoted form of p. */
  method CatRepr(s: Sds, p: seq<byte>)
    requires s.Valid() && Fits(s.Len() + |Quoted(p)|)
    modifies s, s.buf
    ensures s.Valid()
    ensures s.Contents() == old(s.Contents()) + Quoted(p)
    ensures s.buf == old(s.buf) || fresh(s.buf)
  {
    ghost var total := s.Len() + |Quoted(p)|;
    ghost var before := s.Contents();
    CatOne(s, DQUOTE, total);
    CatBytes(s, p, total);
    CatOne(s, DQUOTE, total);
    Regroup(before, [DQUOTE], EscapedBytes(p));
    Regroup(before, [DQUOTE] + EscapedBytes(p), [DQUOTE]);
  }

  /** The loop over the bytes. */
  method CatBytes(s: Sds, p: seq<byte>, ghost total: nat)
    requires s.Valid() && Fits(total) && s.Len() + |EscapedBytes(p)| <= total
    modifies s, s.buf
    ensures s.Valid()
    ensures s.Contents() == old(s.Contents()) + EscapedBytes(p)
    ensures s.buf == old(s.buf) || fresh(s.buf)
  {
    ghost var target := s.Contents() + EscapedBytes(p);
    var k := 0;
    assert p[0..] == p;
    while k < |p|
      invariant k <= |p|
      invariant s.Valid() && (s.buf == old(s.buf) || fresh(s.buf))
      invariant s.Contents() + EscapedBytes(p[k..]) == target
    {
      assert p[k..][0] == p[k] && p[k..][1..] == p[k + 1..];
      Regroup(s.Contents(), EscapedByte(p[k]), EscapedBytes(p[k + 1..]));
      FitsDownward(total, s.Len() + |EscapedByte(p[k])|);
      CatByte(s, p[k]);
      k := k + 1;
    }
  }

  /** Appends one byte to a string that stays within a total that fits. */
  method CatOne(s: Sds, c: byte, ghost total: nat)
    requires s.Valid() && Fits(total) && s.Len() < total
    modifies s, s.buf
    ensures s.Valid() && s.Contents() == old(s.Contents()) + [c]
    ensures s.buf == old(s.buf) || fresh(s.buf)
  {
    FitsDownward(total, s.Len() + 1);
    s.CatLen([c]);
  }

  /** The switch over one byte. */
  method CatByte(s: Sds, c: byte)
    requires s.Valid() && Fits(s.Len() + |EscapedByte(c)|)
    modifies s, s.buf
    ensures s.Valid()
    ensures s.Contents() == old(s.Contents()) + EscapedByte(c)
    ensures s.buf == old(s.buf) || fresh(s.buf)
  {
    if c == BACKSLASH || c == DQUOTE {
      s.CatLen([BACKSLASH, c]);
    } else if c == LF {
      s.CatLen([BACKSLASH, LETTER_N]);
    } else if c == CR {
      s.CatLen([BACKSLASH, LETTER_R]);
    } else if c == TAB {
      s.CatLen([BACKSLASH, LETTER_T]);
    } else if c == BEL {
      s.CatLen([BACKSLASH, LETTER_A]);
    } else if c == BS {
      s.CatLen([BACKSLASH, LETTER_B]);
    } else if IsPrint(c) {
      s.CatLen([c]);
    } else {
      s.CatLen([BACKSLASH, LETTER_X, HexDigit(c / 16), HexDigit(c % 16)]);
    }
  }

  /** What the scanner is inside of. */
  datatype Mode = Word | Double | Single

  function Scan(mode: Mode, s: seq<byte>): Parsed {
    match mode
    case Word => Outside(s)
    case Double => InDouble(s)
    case Single => InSingle(s)
  }

  /** The characters of the line from position p on. */
  function From(line: seq<byte>, p: nat): seq<byte>
    requires p < |line|
  {
    line[p..|line| - 1]
  }

  lemma FromStep(line: seq<byte>, p: nat)
    requires IsCString(line) && p < |line|
    ensures line[p] == NUL <==> From(line, p) == []
    ensures line[p] != NUL ==> From(line, p)[0] == line[p] && From(line, p)[1..] == From(line, p + 1)
  {
  }

  /** The outcome of one character inside a token: go on in a mode at a position, finish the
      token there, or fail. */
  datatype Turn = Go(mode: Mode, p: nat, bytes: seq<byte>) | Done(p: nat) | Fail

  /** The inner loop of sdssplitargs inside double quotes. All reads of line stay at or
      before its terminator: each look-ahead is made only behind a byte that is not NUL. */
  method TurnDouble(line: seq<byte>, p: nat) returns (t: Turn)
    requires IsCString(line) && p < |line|
    ensures Meets(line, p, Double, t)
  {
    FromStep(line, p);
    if line[p] != NUL {
      FromStep(line, p + 1);
      if line[p + 1] != NUL {
        FromStep(line, p + 2);
        if line[p + 2] != NUL {
          FromStep(line, p + 3);
        }
      }
    }
    ghost var s := From(line, p);
    if line[p] == BACKSLASH && line[p + 1] == LETTER_X && IsHexDigit(line[p + 2]) && IsHexDigit(line[p + 3]) {
      assert s[1] == line[p + 1] && s[2] == line[p + 2] && s[3] == line[p + 3] && s[4..] == From(line, p + 4);
      t := Go(Double, p + 4, [HexDigitToInt(line[p + 2]) * 16 + HexDigitToInt(line[p + 3])]);
    } else if line[p] == BACKSLASH && line[p + 1] != NUL {
      assert s[1] == line[p + 1] && s[2..] == From(line, p + 2);
      t := Go(Double, p + 2, [Unescaped(line[p + 1])]);
    } else if line[p] == DQUOTE {
      if line[p + 1] != NUL && !IsSpace(line[p + 1]) {
        t := Fail;
      } else {
        t := Done(p + 1);
      }
    } else if line[p] == NUL {
      t := Fail;
    } else {
      t := Go(Double, p + 1, [line[p]]);
    }
  }

  method TurnSingle(line: seq<byte>, p: nat) returns (t: Turn)
    requires IsCString(line) && p < |line|
    ensures Meets(line, p, Single, t)
  {
    FromStep(line, p);
    if line[p] != NUL {
      FromStep(line, p + 1);
    }
    ghost var s := From(line, p);
    if line[p] == BACKSLASH && line[p + 1] == SQUOTE {
      assert s[1] == line[p + 1] && s[2..] == From(line, p + 2);
      t := Go(Single, p + 2, [SQUOTE]);
    } else if line[p] == SQUOTE {
      if line[p + 1] != NUL && !IsSpace(line[p + 1]) {
        t := Fail;
      } else {
        t := Done(p + 1);
      }
    } else if line[p] == NUL {
      t := Fail;
    } else {
      t := Go(Single, p + 1, [line[p]]);
    }
  }

  method TurnWord(line: seq<byte>, p: nat) returns (t: Turn)
    requires IsCString(line) && p < |line|
    ensures Meets(line, p, Word, t)
  {
    FromStep(line, p);
    if IsStop(line[p]) {
      t := Done(p + 1);
    } else if line[p] == NUL {
      t := Done(p);
    } else if line[p] == DQUOTE {
      t := Go(Double, p + 1, []);
    } else if line[p] == SQUOTE {
      t := Go(Single, p + 1, []);
    } else {
      t := Go(Word, p + 1, [line[p]]);
    }
  }

  /** A turn advances the scan as the grammar says. */
  ghost predicate Meets(line: seq<byte>, p: nat, mode: Mode, t: Turn)
    requires p < |line|
  {
    match t
    case Go(mode', p', bytes) =>
      && p < p' < |line|
      && |bytes| <= p' - p
      && Scan(mode, From(line, p)) == Prepend(bytes, Scan(mode', From(line, p')))
    case Done(p') =>
      && p <= p' < |line| && (line[p] != NUL ==> p < p')
      && Scan(mode, From(line, p)) == Token([], From(line, p'))
    case Fail => !Scan(mode, From(line, p)).Token?
  }

  method OneTurn(line: seq<byte>, p: nat, mode: Mode) returns (t: Turn)
    requires IsCString(line) && p < |line|
    ensures Meets(line, p, mode, t)
  {
    match mode
    case Double => t := TurnDouble(line, p);
    case Single => t := TurnSingle(line, p);
    case Word => t := TurnWord(line, p);
  }

  /** Gets one token that starts at start, into a new string. */
  method GetToken(line: seq<byte>, start: nat) returns (current: Sds?, p: nat)
    requires IsCString(line) && start < |line| && line[start] != NUL && Fits(|line|)
    ensures start < p < |line|
    ensures current == null ==> !Outside(From(line, start)).Token?
    ensures current != null ==>
      && fresh(current) && fresh(current.buf) && current.Valid()
      && Outside(From(line, start)) == Token(current.Contents(), From(line, p))
  {
    p := start;
    var mode := Word;
    var token := new Sds.NewLen(InitBytes.From([]), 0);
    var done := false;
    PrependNothing(Outside(From(line, start)));
    while !done
      invariant start <= p < |line| && (p == start ==> !done)
      invariant fresh(token) && fresh(token.buf) && token.Valid() && token.Len() <= p
      invariant Outside(From(line, start)) ==
        Prepend(token.Contents(), if done then Token([], From(line, p)) else Scan(mode, From(line, p)))
      decreases !done, |line| - p
    {
      var t := OneTurn(line, p, mode);
      match t {
        case Fail =>
          p := |line| - 1;
          return null, p;
        case Done(p') =>
          p := p';
          done := true;
        case Go(mode', p', more) =>
          PrependTwice(token.Contents(), more, Scan(mode', From(line, p')));
          FitsDownward(|line|, token.Len() + |more|);
          token.CatLen(more);
          mode, p := mode', p';
      }
    }
    current := token;
  }

  /** One round of the outer loop: skips blanks, gets the next argument if there is one, and
      puts it at the end of the vector; None when the line is rejected. */
  method NextArg(line: seq<byte>, start: nat, vector: seq<Sds>, ghost tokens: seq<seq<byte>>)
    returns (more: bool, vector': Option<seq<Sds>>, ghost tokens': seq<seq<byte>>, p: nat)
    requires IsCString(line) && start < |line| && Fits(|line|)
    requires Hold(vector, tokens) && Separate(vector)
    ensures start <= p < |line| && (more ==> start < p && vector'.Some?)
    ensures vector'.None? ==> ParseLine(From(line, start)).None?
    ensures vector'.Some? ==>
      && Hold(vector'.value, tokens') && Separate(vector'.value)
      && (forall s :: s in vector'.value ==> s in vector || (fresh(s) && fresh(s.buf)))
      && AppendTo(tokens, ParseLine(From(line, start))) ==
         if more then AppendTo(tokens', ParseLine(From(line, p))) else Some(tokens')
  {
    p := SkipSpaces(line, start);
    FromStep(line, p);
    if line[p] == NUL {
      assert tokens + [] == tokens;
      return false, Some(vector), tokens, p;
    }
    var current;
    current, p := GetToken(line, p);
    if current == null {
      return false, None, tokens, p;
    }
    AppendMore(tokens, current.Contents(), ParseLine(From(line, p)));
    OneMore(vector, tokens, current);
    more, vector', tokens' := true, Some(vector + [current]), tokens + [current.Contents()];
  }

  /** sdssplitargs on a C line: new strings that hold the arguments, or None for NULL. */
  method SplitArgs(line: seq<byte>) returns (argv: Option<seq<Sds>>)
    requires IsCString(line) && Fits(|line|)
    ensures argv.None? <==> ParseLine(Chars(line)).None?
    ensures argv.Some? ==> Hold(argv.value, ParseLine(Chars(line)).value)
    ensures argv.Some? ==> Separate(argv.value) && forall s :: s in argv.value ==> fresh(s) && fresh(s.buf)
  {
    var p, more := 0, true;
    ghost var tokens: seq<seq<byte>> := [];
    argv := Some([]);
    assert From(line, 0) == Chars(line);
    AppendNothing(ParseLine(Chars(line)));
    while more
      invariant p < |line| && (more ==> argv.Some?)
      invariant argv.None? ==> ParseLine(Chars(line)).None?
      invariant argv.Some? ==> Hold(argv.value, tokens) && Separate(argv.value)
      invariant argv.Some? ==> forall s :: s in argv.value ==> fresh(s) && fresh(s.buf)
      invariant argv.Some? ==>
        ParseLine(Chars(line)) == if more then AppendTo(tokens, ParseLine(From(line, p))) else Some(tokens)
      decreases more, |line| - p
    {
      more, argv, tokens, p := NextArg(line, p, argv.value, tokens);
    }
  }

  function AppendTo(done: seq<seq<byte>>, r: Option<seq<seq<byte>>>): Option<seq<seq<byte>>> {
    match r
    case Some(args) => Some(done + args)
    case None => None
  }

  lemma AppendNothing(r: Option<seq<seq<byte>>>)
    ensures AppendTo([], r) == r
  {
    if r.Some? {
      assert [] + r.value == r.value;
    }
  }

  lemma AppendMore(done: seq<seq<byte>>, next: seq<byte>, r: Option<seq<seq<byte>>>)
    ensures AppendTo(done, AppendTo([next], r)) == AppendTo(done + [next], r)
  {
    if r.Some? {
      Regroup(done, [next], r.value);
    }
  }

  /** The loop that skips blanks. */
  method SkipSpaces(line: seq<byte>, start: nat) returns (p: nat)
    requires IsCString(line) && start < |line|
    ensures start <= p < |line|
    ensures From(line, p) == SkipBlanks(From(line, start))
  {
    p := start;
    FromStep(line, p);
    while line[p] != NUL && IsSpace(line[p])
      invariant start <= p < |line|
      invariant SkipBlanks(From(line, p)) == SkipBlanks(From(line, start))
      decreases |line| - p
    {
      FromStep(line, p);
      p := p + 1;
    }
    FromStep(line, p);
  }
}
