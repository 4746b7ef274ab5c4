/** The quoted form that sdscatrepr prints and the argument lines that sdssplitargs parses,
    as functions on byte strings, and the proof that the parser undoes the printer. */
module SdsQuoting {
  import opened Wrappers

  const BEL: byte := 7
  const BS: byte := 8
  const TAB: byte := 9
  const LF: byte := 10
  const CR: byte := 13
  const SPACE: byte := 32
  const DQUOTE: byte := 34
  const SQUOTE: byte := 39
  const BACKSLASH: byte := 92
  const LETTER_A: byte := 97
  const LETTER_B: byte := 98
  const LETTER_N: byte := 110
  const LETTER_R: byte := 114
  const LETTER_T: byte := 116
  const LETTER_X: byte := 120

  /** isspace and isprint in the C locale. */
  predicate IsSpace(c: byte) {
    c == SPACE || 9 <= c <= 13
  }

  predicate IsPrint(c: byte) {
    32 <= c <= 126
  }

  ghost predicate Blank(s: seq<byte>) {
    forall i :: 0 <= i < |s| ==> IsSpace(s[i])
  }

  // ---------- hexadecimal digits ----------

  predicate IsHexDigit(c: byte) {
    48 <= c <= 57 || 97 <= c <= 102 || 65 <= c <= 70
  }

  function HexDigitToInt(c: byte): (n: nat)
    ensures n < 16
  {
    if 48 <= c <= 57 then c - 48
    else if 97 <= c <= 102 then c - 87
    else if 65 <= c <= 70 then c - 55
    else 0
  }

  /** The digit %x prints. */
  function HexDigit(n: nat): byte
    requires n < 16
  {
    if n < 10 then 48 + n else 87 + n
  }

  // ---------- printing ----------

  function EscapedByte(c: byte): (e: seq<byte>)
    ensures 1 <= |e| <= 4
  {
    if c == BACKSLASH || c == DQUOTE then [BACKSLASH, c]
    else if c == LF then [BACKSLASH, LETTER_N]
    else if c == CR then [BACKSLASH, LETTER_R]
    else if c == TAB then [BACKSLASH, LETTER_T]
    else if c == BEL then [BACKSLASH, LETTER_A]
    else if c == BS then [BACKSLASH, LETTER_B]
    else if IsPrint(c) then [c]
    else [BACKSLASH, LETTER_X, HexDigit(c / 16), HexDigit(c % 16)]
  }

  function EscapedBytes(p: seq<byte>): seq<byte> {
    if p == [] then [] else EscapedByte(p[0]) + EscapedBytes(p[1..])
  }

  /** The quoted form of a byte string. */
  function Quoted(p: seq<byte>): seq<byte> {
    [DQUOTE] + EscapedBytes(p) + [DQUOTE]
  }

  // ---------- parsing ----------

  /** One token of a line and what follows it, or why there is none. */
  datatype Parsed =
    | Token(bytes: seq<byte>, rest: seq<byte>)
    | Unterminated
    | JunkAfterQuote

  function Prepend(done: seq<byte>, r: Parsed): Parsed {
    if r.Token? then Token(done + r.bytes, r.rest) else r
  }

  /** A backslash, an x and two hexadecimal digits. */
  predicate HexEscape(s: seq<byte>) {
    |s| >= 4 && s[0] == BACKSLASH && s[1] == LETTER_X && IsHexDigit(s[2]) && IsHexDigit(s[3])
  }

  function Unescaped(c: byte): byte {
    if c == LETTER_N then LF
    else if c == LETTER_R then CR
    else if c == LETTER_T then TAB
    else if c == LETTER_B then BS
    else if c == LETTER_A then BEL
    else c
  }

  /** Behind a closing quote comes white space or nothing. */
  function Closed(rest: seq<byte>): Parsed {
    if rest != [] && !IsSpace(rest[0]) then JunkAfterQuote else Token([], rest)
  }

  function InDouble(s: seq<byte>): (r: Parsed)
    ensures r.Token? ==> |r.rest| < |s|
  {
    if s == [] then Unterminated
    else if HexEscape(s) then Prepend([HexDigitToInt(s[2]) * 16 + HexDigitToInt(s[3])], InDouble(s[4..]))
    else if s[0] == BACKSLASH && |s| > 1 then Prepend([Unescaped(s[1])], InDouble(s[2..]))
    else if s[0] == DQUOTE then Closed(s[1..])
    else Prepend([s[0]], InDouble(s[1..]))
  }

  function InSingle(s: seq<byte>): (r: Parsed)
    ensures r.Token? ==> |r.rest| < |s|
  {
    if s == [] then Unterminated
    else if s[0] == BACKSLASH && |s| > 1 && s[1] == SQUOTE then Prepend([SQUOTE], InSingle(s[2..]))
    else if s[0] == SQUOTE then Closed(s[1..])
    else Prepend([s[0]], InSingle(s[1..]))
  }

  /** The bytes that end an unquoted token: fewer than isspace accepts. */
  predicate IsStop(c: byte) {
    c == SPACE || c == LF || c == CR || c == TAB
  }

  function Outside(s: seq<byte>): (r: Parsed)
    ensures r.Token? && s != [] ==> |r.rest| < |s|
    ensures r.Token? && s == [] ==> r.rest == []
  {
    if s == [] then Token([], [])
    else if IsStop(s[0]) then Token([], s[1..])
    else if s[0] == DQUOTE then InDouble(s[1..])
    else if s[0] == SQUOTE then InSingle(s[1..])
    else Prepend([s[0]], Outside(s[1..]))
  }

  function SkipBlanks(s: seq<byte>): (r: seq<byte>)
    ensures |r| <= |s|
    ensures r != [] ==> !IsSpace(r[0])
  {
    if s != [] && IsSpace(s[0]) then SkipBlanks(s[1..]) else s
  }

  /** The arguments on a line, or None if the line is malformed. */
  function ParseLine(s: seq<byte>): Option<seq<seq<byte>>>
    decreases |s|
  {
    var t := SkipBlanks(s);
    if t == [] then Some([])
    else
      match Outside(t)
      case Token(bytes, rest) =>
        (match ParseLine(rest)
         case Some(args) => Some([bytes] + args)
         case None => None)
      case _ => None
  }

  // ---------- the parser undoes the printer ----------

  /** Reading one printed byte gives the byte back. */
  lemma EscapeIsRead(c: byte, tail: seq<byte>)
    ensures InDouble(EscapedByte(c) + tail) == Prepend([c], InDouble(tail))
  {
    var s := EscapedByte(c) + tail;
    if |EscapedByte(c)| == 4 {
      assert s[0] == BACKSLASH && s[1] == LETTER_X && s[2] == HexDigit(c / 16) && s[3] == HexDigit(c % 16);
      assert s[4..] == tail;
    } else if |EscapedByte(c)| == 2 {
      assert s[0] == BACKSLASH && s[1] != LETTER_X && Unescaped(s[1]) == c;
      assert s[2..] == tail;
    } else {
      assert s[0] == c && s[1..] == tail;
    }
  }

  lemma {:induction false} BodyIsRead(p: seq<byte>, rest: seq<byte>)
    requires rest == [] || IsSpace(rest[0])
    ensures InDouble(EscapedBytes(p) + ([DQUOTE] + rest)) == Token(p, rest)
  {
    var tail := [DQUOTE] + rest;
    if p == [] {
      assert EscapedBytes(p) + tail == tail;
      assert tail[0] == DQUOTE && tail[1..] == rest;
    } else {
      var later := EscapedBytes(p[1..]) + tail;
      Regroup(EscapedByte(p[0]), EscapedBytes(p[1..]), tail);
      assert EscapedBytes(p) + tail == EscapedByte(p[0]) + later;
      EscapeIsRead(p[0], later);
      BodyIsRead(p[1..], rest);
      assert InDouble(later) == Token(p[1..], rest);
      assert [p[0]] + p[1..] == p;
    }
  }

  lemma QuotedIsRead(p: seq<byte>, rest: seq<byte>)
    requires rest == [] || IsSpace(rest[0])
    ensures Outside(Quoted(p) + rest) == Token(p, rest)
  {
    var s := Quoted(p) + rest;
    var body := EscapedBytes(p) + ([DQUOTE] + rest);
    Regroup([DQUOTE] + EscapedBytes(p), [DQUOTE], rest);
    Regroup([DQUOTE], EscapedBytes(p), [DQUOTE] + rest);
    assert s[0] == DQUOTE && s[1..] == body;
    BodyIsRead(p, rest);
  }

  /** A printed byte string contains no NUL: it can stand on a C line. */
  lemma {:induction false} QuotedHasNoNul(p: seq<byte>)
    ensures NUL !in EscapedBytes(p) && NUL !in Quoted(p)
  {
    if p != [] {
      QuotedHasNoNul(p[1..]);
      assert NUL !in EscapedByte(p[0]);
    }
  }

  /** The quoted arguments one after the other, each followed by its gap. */
  function Line(args: seq<seq<byte>>, gaps: seq<seq<byte>>): seq<byte>
    requires |args| == |gaps|
  {
    if args == [] then [] else Quoted(args[0]) + (gaps[0] + Line(args[1..], gaps[1..]))
  }

  /** Gaps are white space, and only the last one may be empty. */
  ghost predicate Separating(gaps: seq<seq<byte>>) {
    forall i :: 0 <= i < |gaps| ==> Blank(gaps[i]) && (i < |gaps| - 1 ==> gaps[i] != [])
  }

  lemma {:induction false} BlanksAreSkipped(gap: seq<byte>, s: seq<byte>)
    requires Blank(gap) && (s != [] ==> !IsSpace(s[0]))
    ensures SkipBlanks(gap + s) == s
  {
    if gap == [] {
      assert gap + s == s;
    } else {
      assert (gap + s)[1..] == gap[1..] + s;
      BlanksAreSkipped(gap[1..], s);
    }
  }

  /** The round trip: quote any list of byte strings, lay them out on a line with any white
      space around and between them, and the line parses to exactly that list. */
  lemma {:induction false} SplitUndoesRepr(lead: seq<byte>, args: seq<seq<byte>>, gaps: seq<seq<byte>>)
    requires Blank(lead) && |args| == |gaps| && Separating(gaps)
    ensures ParseLine(lead + Line(args, gaps)) == Some(args)
    decreases |args|
  {
    var line := Line(args, gaps);
    BlanksAreSkipped(lead, line);
    if args != [] {
      var rest := gaps[0] + Line(args[1..], gaps[1..]);
      assert line == Quoted(args[0]) + rest;
      assert rest != [] ==> IsSpace(rest[0]) by {
        if gaps[0] == [] {
          assert |gaps| == 1;
        }
      }
      QuotedIsRead(args[0], rest);
      assert Separating(gaps[1..]) by {
        assert forall i :: 0 <= i < |gaps| - 1 ==> gaps[1..][i] == gaps[i + 1];
      }
      SplitUndoesRepr(gaps[0], args[1..], gaps[1..]);
      assert [args[0]] + args[1..] == args;
    }
  }

  /** Such a line contains no NUL, so with a terminator it is a C string of those characters. */
  lemma {:induction false} LineHasNoNul(args: seq<seq<byte>>, gaps: seq<seq<byte>>)
    requires |args| == |gaps| && Separating(gaps)
    ensures NUL !in Line(args, gaps)
  {
    if args != [] {
      QuotedHasNoNul(args[0]);
      assert Blank(gaps[0]);
      assert Separating(gaps[1..]) by {
        assert forall i :: 0 <= i < |gaps| - 1 ==> gaps[1..][i] == gaps[i + 1];
      }
      LineHasNoNul(args[1..], gaps[1..]);
    }
  }

  lemma ReprLineIsCString(lead: seq<byte>, args: seq<seq<byte>>, gaps: seq<seq<byte>>)
    requires Blank(lead) && |args| == |gaps| && Separating(gaps)
    ensures IsCString(lead + Line(args, gaps) + [NUL])
    ensures Chars(lead + Line(args, gaps) + [NUL]) == lead + Line(args, gaps)
  {
    LineHasNoNul(args, gaps);
    var line := lead + Line(args, gaps);
    forall i | 0 <= i < |line|
      ensures line[i] != NUL
    {
      assert i >= |lead| ==> line[i] in Line(args, gaps);
    }
  }

  /** Different byte strings have different quoted forms. */
  lemma QuotedIsInjective(p: seq<byte>, q: seq<byte>)
    requires Quoted(p) == Quoted(q)
    ensures p == q
  {
    QuotedIsRead(p, []);
    QuotedIsRead(q, []);
    assert Quoted(p) + [] == Quoted(q) + [];
  }

  // ---------- which lines are malformed ----------

  /** The number of backslashes directly before position r. */
  function BackslashRun(s: seq<byte>, r: nat): nat
    requires r <= |s|
  {
    if r == 0 || s[r - 1] != BACKSLASH then 0 else 1 + BackslashRun(s, r - 1)
  }

  /** The quote character at r ends a body opened by the same character: between double
      quotes an even number of backslashes precedes it, between single quotes none. */
  predicate Closes(quote: byte, s: seq<byte>, r: nat)
    requires r < |s|
  {
    && s[r] == quote
    && if quote == DQUOTE then BackslashRun(s, r) % 2 == 0 else r == 0 || s[r - 1] != BACKSLASH
  }

  function FirstClose(quote: byte, s: seq<byte>, from: nat): (r: Option<nat>)
    requires from <= |s|
    ensures r.Some? ==> from <= r.value < |s| && Closes(quote, s, r.value)
    ensures forall i :: from <= i < (if r.Some? then r.value else |s|) ==> !Closes(quote, s, i)
    decreases |s| - from
  {
    if from == |s| then None
    else if Closes(quote, s, from) then Some(from)
    else FirstClose(quote, s, from + 1)
  }

  /** Where the first byte is that is not an ordinary character of an unquoted token. */
  function PlainRun(s: seq<byte>): (k: nat)
    ensures k <= |s|
    ensures k < |s| ==> IsStop(s[k]) || s[k] == DQUOTE || s[k] == SQUOTE
  {
    if s == [] || IsStop(s[0]) || s[0] == DQUOTE || s[0] == SQUOTE then 0 else 1 + PlainRun(s[1..])
  }

  /** What follows the first token of a line that starts with one, by the positions of its
      quotes alone: None if the quote is never closed, or if the quote that closes it is
      followed by something other than white space. */
  function AfterToken(t: seq<byte>): (r: Option<seq<byte>>)
    ensures r.Some? ==> |r.value| <= |t| && (t != [] ==> |r.value| < |t|)
  {
    var k := PlainRun(t);
    if k == |t| then Some([])
    else if IsStop(t[k]) then Some(t[k + 1..])
    else
      var body := t[k + 1..];
      match FirstClose(t[k], body, 0)
      case None => None
      case Some(r) =>
        if r + 1 < |body| && !IsSpace(body[r + 1]) then None else Some(body[r + 1..])
  }

  /** The malformed lines: some token on the line has no end. */
  predicate Malformed(s: seq<byte>)
    decreases |s|
  {
    var t := SkipBlanks(s);
    t != [] && (AfterToken(t).None? || Malformed(AfterToken(t).value))
  }

  /** A complete character or escape of k bytes at the start of a double-quoted body. */
  predicate WholeChunk(s: seq<byte>, k: nat) {
    0 < k <= |s| && (s[k - 1] != BACKSLASH || (k == 2 && s[0] == BACKSLASH))
  }

  /** Dropping it does not change which later quotes are escaped. */
  lemma {:induction false} RunAfterChunk(s: seq<byte>, k: nat, r: nat)
    requires WholeChunk(s, k) && k + r <= |s|
    ensures BackslashRun(s, k + r) % 2 == BackslashRun(s[k..], r) % 2
  {
    if r > 0 {
      assert s[k..][r - 1] == s[k + r - 1];
      RunAfterChunk(s, k, r - 1);
    } else if k == 2 && s[1] == BACKSLASH {
      assert BackslashRun(s, 1) == 1 + BackslashRun(s, 0);
    }
  }

  /** Nothing closes within the first k bytes, and closing behind them is the same with and
      without them. */
  ghost predicate Skippable(quote: byte, s: seq<byte>, k: nat) {
    && k <= |s|
    && (forall i :: 0 <= i < k ==> !Closes(quote, s, i))
    && (forall r :: 0 <= r < |s| - k ==> Closes(quote, s[k..], r) == Closes(quote, s, k + r))
  }

  /** A quoted text ends where its first closing quote is, and nowhere else. */
  ghost predicate EndsAtClose(quote: byte, s: seq<byte>, p: Parsed) {
    match FirstClose(quote, s, 0)
    case None => p == Unterminated
    case Some(r) =>
      if r + 1 < |s| && !IsSpace(s[r + 1]) then p == JunkAfterQuote
      else p.Token? && p.rest == s[r + 1..]
  }

  lemma SkipPrefix(quote: byte, s: seq<byte>, k: nat, done: seq<byte>, p: Parsed)
    requires Skippable(quote, s, k) && EndsAtClose(quote, s[k..], p)
    ensures EndsAtClose(quote, s, Prepend(done, p))
  {
    var later := FirstClose(quote, s[k..], 0);
    var first := FirstClose(quote, s, 0);
    if first.Some? {
      assert Closes(quote, s[k..], first.value - k);
    }
    if later.Some? {
      assert Closes(quote, s, k + later.value);
    }
  }

  lemma DoubleChunkSkips(s: seq<byte>, k: nat)
    requires WholeChunk(s, k) && forall i :: 0 <= i < k ==> !Closes(DQUOTE, s, i)
    ensures Skippable(DQUOTE, s, k)
  {
    forall r | 0 <= r < |s| - k
      ensures Closes(DQUOTE, s[k..], r) == Closes(DQUOTE, s, k + r)
    {
      RunAfterChunk(s, k, r);
    }
  }

  lemma {:induction false} DoubleEndsAtClose(s: seq<byte>)
    ensures EndsAtClose(DQUOTE, s, InDouble(s))
    decreases |s|
  {
    if s == [] {
    } else if HexEscape(s) {
      DoubleChunkSkips(s, 4);
      DoubleEndsAtClose(s[4..]);
      SkipPrefix(DQUOTE, s, 4, [HexDigitToInt(s[2]) * 16 + HexDigitToInt(s[3])], InDouble(s[4..]));
    } else if s[0] == BACKSLASH && |s| > 1 {
      assert BackslashRun(s, 1) == 1 + BackslashRun(s, 0);
      DoubleChunkSkips(s, 2);
      DoubleEndsAtClose(s[2..]);
      SkipPrefix(DQUOTE, s, 2, [Unescaped(s[1])], InDouble(s[2..]));
    } else if s[0] == DQUOTE {
      assert Closes(DQUOTE, s, 0);
    } else {
      if s[0] != BACKSLASH {
        DoubleChunkSkips(s, 1);
      }
      DoubleEndsAtClose(s[1..]);
      SkipPrefix(DQUOTE, s, 1, [s[0]], InDouble(s[1..]));
    }
  }

  lemma {:induction false} SingleEndsAtClose(s: seq<byte>)
    ensures EndsAtClose(SQUOTE, s, InSingle(s))
    decreases |s|
  {
    if s == [] {
    } else if s[0] == BACKSLASH && |s| > 1 && s[1] == SQUOTE {
      SingleEndsAtClose(s[2..]);
      SkipPrefix(SQUOTE, s, 2, [SQUOTE], InSingle(s[2..]));
    } else if s[0] == SQUOTE {
      assert Closes(SQUOTE, s, 0);
    } else {
      SingleEndsAtClose(s[1..]);
      SkipPrefix(SQUOTE, s, 1, [s[0]], InSingle(s[1..]));
    }
  }

  /** An unquoted token runs to the first byte that is not an ordinary character. */
  lemma {:induction false} OutsideEndsAtRun(s: seq<byte>)
    ensures var k := PlainRun(s);
      if k == |s| then Outside(s) == Token(s, [])
      else if IsStop(s[k]) then Outside(s) == Token(s[..k], s[k + 1..])
      else Outside(s) == Prepend(s[..k], if s[k] == DQUOTE then InDouble(s[k + 1..]) else InSingle(s[k + 1..]))
  {
    if PlainRun(s) > 0 {
      var later := s[1..];
      var k := PlainRun(later);
      OutsideEndsAtRun(later);
      assert s[..k + 1] == [s[0]] + later[..k];
      if k < |later| {
        assert s[k + 1] == later[k] && s[k + 2..] == later[k + 1..];
        if !IsStop(later[k]) {
          PrependTwice([s[0]], later[..k], if later[k] == DQUOTE then InDouble(later[k + 1..]) else InSingle(later[k + 1..]));
        }
      } else {
        assert s == [s[0]] + later;
      }
    } else {
      assert s[..0] == [];
      PrependNothing(Outside(s));
    }
  }

  lemma PrependNothing(p: Parsed)
    ensures Prepend([], p) == p
  {
    if p.Token? {
      assert [] + p.bytes == p.bytes;
    }
  }

  lemma PrependTwice(a: seq<byte>, b: seq<byte>, p: Parsed)
    ensures Prepend(a, Prepend(b, p)) == Prepend(a + b, p)
  {
    if p.Token? {
      Regroup(a, b, p.bytes);
    }
  }

  lemma TokenEnds(t: seq<byte>)
    ensures Outside(t).Token? <==> AfterToken(t).Some?
    ensures Outside(t).Token? ==> Outside(t).rest == AfterToken(t).value
  {
    var k := PlainRun(t);
    OutsideEndsAtRun(t);
    if k < |t| && !IsStop(t[k]) {
      DoubleEndsAtClose(t[k + 1..]);
      SingleEndsAtClose(t[k + 1..]);
    }
  }

  /** sdssplitargs fails exactly on the malformed lines. */
  lemma {:induction false} FailsIffMalformed(s: seq<byte>)
    ensures ParseLine(s).None? <==> Malformed(s)
    decreases |s|
  {
    var t := SkipBlanks(s);
    TokenEnds(t);
    if t != [] && Outside(t).Token? {
      FailsIffMalformed(Outside(t).rest);
    }
  }
}
