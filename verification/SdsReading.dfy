/** What the quoting grammar means, byte by byte: what the printer prints for each byte, and how
    a text may be written on a line so that the parser reads it. Bytes stand here as the
    numbers of the ASCII table, independent of the names the grammar gives them. */
module SdsReading {
  import opened Wrappers
  import opened SdsQuoting

  /** The digit d stands for n. */
  predicate LowerDigit(d: byte, n: int) {
    (48 <= d <= 57 && n == d - 48) || (97 <= d <= 102 && n == d - 87)
  }

  predicate Digit(d: byte, n: int) {
    LowerDigit(d, n) || (65 <= d <= 70 && n == d - 55)
  }

  predicate White(c: byte) {
    c == 32 || 9 <= c <= 13
  }

  // ---------- what is printed ----------

  /** The form of each byte: printable ones but the double quote and the backslash stand for
      themselves, seven bytes have an escape of their own, and the others are two lower-case
      hexadecimal digits. */
  lemma EscapedForm(c: byte)
    ensures var e := EscapedByte(c);
      if 32 <= c <= 126 && c != 34 && c != 92 then e == [c]
      else if c == 34 || c == 92 then e == [92, c]
      else if c == 7 then e == [92, 97]
      else if c == 8 then e == [92, 98]
      else if c == 9 then e == [92, 116]
      else if c == 10 then e == [92, 110]
      else if c == 13 then e == [92, 114]
      else |e| == 4 && e[0] == 92 && e[1] == 120 && LowerDigit(e[2], c / 16) && LowerDigit(e[3], c % 16)
  {
  }

  /** Whatever is quoted, only printable characters are printed, between double quotes. */
  lemma {:induction false} OnlyPrintable(p: seq<byte>)
    ensures forall c :: c in EscapedBytes(p) || c in Quoted(p) ==> 32 <= c <= 126
    ensures |Quoted(p)| >= 2 && Quoted(p)[0] == 34 && Quoted(p)[|Quoted(p)| - 1] == 34
  {
    if p != [] {
      OnlyPrintable(p[1..]);
      EscapedForm(p[0]);
    }
  }

  // ---------- between double quotes ----------

  /** Between double quotes a backslash and d stand for c. */
  predicate Pair(d: byte, c: byte) {
    if d == 97 then c == 7
    else if d == 98 then c == 8
    else if d == 116 then c == 9
    else if d == 110 then c == 10
    else if d == 114 then c == 13
    else d != 120 && c == d
  }

  /** Between double quotes the bytes s stand for the byte c, whatever follows. */
  predicate Spells(s: seq<byte>, c: byte) {
    if |s| == 1 then s[0] == c && c != 34 && c != 92
    else if |s| == 2 then s[0] == 92 && Pair(s[1], c)
    else |s| == 4 && s[0] == 92 && s[1] == 120 && Digit(s[2], c / 16) && Digit(s[3], c % 16)
  }

  lemma PlainByteIsRead(c: byte, tail: seq<byte>)
    requires c != 34 && c != 92
    ensures InDouble([c] + tail) == Prepend([c], InDouble(tail))
  {
    var t := [c] + tail;
    assert t[0] == c && t[1..] == tail;
  }

  lemma PairIsRead(d: byte, tail: seq<byte>)
    requires d != 120
    ensures InDouble([92, d] + tail) == Prepend([Unescaped(d)], InDouble(tail))
  {
    var t := [92, d] + tail;
    assert t[0] == 92 && t[1] == d && t[2..] == tail;
  }

  lemma HexPairIsRead(a: byte, b: byte, tail: seq<byte>)
    requires IsHexDigit(a) && IsHexDigit(b)
    ensures InDouble([92, 120, a, b] + tail) == Prepend([HexDigitToInt(a) * 16 + HexDigitToInt(b)], InDouble(tail))
  {
    var t := [92, 120, a, b] + tail;
    assert t[0] == 92 && t[1] == 120 && t[2] == a && t[3] == b && t[4..] == tail;
  }

  lemma HexSpelling(a: byte, b: byte, c: byte)
    requires Digit(a, c / 16) && Digit(b, c % 16)
    ensures IsHexDigit(a) && IsHexDigit(b) && HexDigitToInt(a) * 16 + HexDigitToInt(b) == c
  {
  }

  lemma LongSpellingIsRead(s: seq<byte>, c: byte, tail: seq<byte>)
    requires Spells(s, c) && |s| == 4
    ensures InDouble(s + tail) == Prepend([c], InDouble(tail))
  {
    assert s == [92, 120, s[2], s[3]];
    HexSpelling(s[2], s[3], c);
    HexPairIsRead(s[2], s[3], tail);
  }

  lemma PairSpellingIsRead(s: seq<byte>, c: byte, tail: seq<byte>)
    requires Spells(s, c) && |s| == 2
    ensures InDouble(s + tail) == Prepend([c], InDouble(tail))
  {
    assert s == [92, s[1]];
    assert Unescaped(s[1]) == c;
    PairIsRead(s[1], tail);
  }

  lemma SpellingIsRead(s: seq<byte>, c: byte, tail: seq<byte>)
    requires Spells(s, c)
    ensures InDouble(s + tail) == Prepend([c], InDouble(tail))
  {
    if |s| == 4 {
      LongSpellingIsRead(s, c, tail);
    } else if |s| == 2 {
      PairSpellingIsRead(s, c, tail);
    } else {
      assert s == [c];
      PlainByteIsRead(c, tail);
    }
  }

  /** An x behind a backslash without two hexadecimal digits behind it stands for itself. */
  lemma LoneXIsRead(tail: seq<byte>)
    requires |tail| < 2 || (forall n :: !Digit(tail[0], n)) || (forall n :: !Digit(tail[1], n))
    ensures InDouble([92, 120] + tail) == Prepend([120], InDouble(tail))
  {
    var s := [92, 120] + tail;
    assert s[0] == 92 && s[1] == 120 && s[2..] == tail;
    if |tail| >= 2 {
      NoDigit(tail[0]);
      NoDigit(tail[1]);
      assert s[2] == tail[0] && s[3] == tail[1];
    }
    assert !HexEscape(s);
  }

  lemma NoDigit(d: byte)
    ensures (forall n :: !Digit(d, n)) <==> !IsHexDigit(d)
  {
    assert IsHexDigit(d) ==> Digit(d, HexDigitToInt(d));
  }

  /** The end of a quoted text: a quote with white space or nothing behind it. */
  lemma QuoteEnds(rest: seq<byte>)
    ensures rest == [] || White(rest[0]) ==>
      InDouble([34] + rest) == Token([], rest) && InSingle([39] + rest) == Token([], rest)
    ensures rest != [] && !White(rest[0]) ==>
      InDouble([34] + rest) == JunkAfterQuote && InSingle([39] + rest) == JunkAfterQuote
    ensures InDouble([]) == Unterminated && InSingle([]) == Unterminated && InDouble([92]) == Unterminated
  {
    var d: seq<byte>, s: seq<byte> := [34] + rest, [39] + rest;
    assert d[1..] == rest && s[1..] == rest;
    var b: seq<byte> := [92];
    assert b[1..] == [];
  }

  /** There is no other case. */
  lemma DoubleCases(s: seq<byte>) returns (k: nat, c: byte)
    requires s != [] && s[0] != 34 && s != [92]
    ensures 0 < k <= |s|
    ensures Spells(s[..k], c) || (s[..k] == [92, 120] &&
      (|s| < 4 || (forall n :: !Digit(s[2], n)) || (forall n :: !Digit(s[3], n))))
  {
    if s[0] != 92 {
      k, c := 1, s[0];
    } else if HexEscape(s) {
      k, c := 4, HexDigitToInt(s[2]) * 16 + HexDigitToInt(s[3]);
    } else {
      k, c := 2, Unescaped(s[1]);
    }
  }

  function Flat(chunks: seq<seq<byte>>): seq<byte> {
    if chunks == [] then [] else chunks[0] + Flat(chunks[1..])
  }

  /** However a text is spelled between double quotes, it is read. */
  lemma {:induction false} DoubleReadsSpellings(chunks: seq<seq<byte>>, p: seq<byte>, rest: seq<byte>)
    requires |chunks| == |p| && forall i :: 0 <= i < |p| ==> Spells(chunks[i], p[i])
    requires rest == [] || White(rest[0])
    ensures InDouble(Flat(chunks) + ([34] + rest)) == Token(p, rest)
  {
    var end: seq<byte> := [34] + rest;
    if p == [] {
      QuoteEnds(rest);
      assert Flat(chunks) + end == end;
    } else {
      Regroup(chunks[0], Flat(chunks[1..]), end);
      SpellingIsRead(chunks[0], p[0], Flat(chunks[1..]) + end);
      forall i | 0 <= i < |p| - 1
        ensures Spells(chunks[1..][i], p[1..][i])
      {
        assert chunks[1..][i] == chunks[i + 1] && p[1..][i] == p[i + 1];
      }
      DoubleReadsSpellings(chunks[1..], p[1..], rest);
      assert [p[0]] + p[1..] == p;
    }
  }

  // ---------- between single quotes ----------

  /** A text with each single quote behind a backslash. */
  function SingleForm(p: seq<byte>): seq<byte> {
    if p == [] then [] else (if p[0] == 39 then [92, 39] else [p[0]]) + SingleForm(p[1..])
  }

  lemma {:induction false} SingleFormIsRead(p: seq<byte>, rest: seq<byte>)
    requires (p == [] || p[|p| - 1] != 92) && (rest == [] || White(rest[0]))
    ensures InSingle(SingleForm(p) + ([39] + rest)) == Token(p, rest)
  {
    var end: seq<byte> := [39] + rest;
    if p == [] {
      QuoteEnds(rest);
      assert SingleForm(p) + end == end;
    } else {
      var first: seq<byte> := if p[0] == 39 then [92, 39] else [p[0]];
      SingleFormIsRead(p[1..], rest);
      SingleFormBegins(p[1..], end);
      SingleByteIsRead(p[0], SingleForm(p[1..]) + end);
      Regroup(first, SingleForm(p[1..]), end);
      assert [p[0]] + p[1..] == p;
    }
  }

  lemma SingleFormBegins(p: seq<byte>, tail: seq<byte>)
    ensures p != [] ==> SingleForm(p) + tail != [] && (SingleForm(p) + tail)[0] != 39
  {
  }

  lemma SingleByteIsRead(c: byte, later: seq<byte>)
    requires c == 92 ==> later == [] || later[0] != 39
    ensures InSingle((if c == 39 then [92, 39] else [c]) + later) == Prepend([c], InSingle(later))
  {
    var s := (if c == 39 then [92, 39] else [c]) + later;
    if c == 39 {
      assert s[0] == 92 && s[1] == 39 && s[2..] == later;
    } else {
      assert s[0] == c && s[1..] == later;
      assert later != [] ==> s[1] == later[0];
    }
  }

  /** What is read between single quotes never ends in a backslash. */
  lemma {:induction false} SingleEndsPlain(s: seq<byte>)
    ensures InSingle(s).Token? && InSingle(s).bytes != [] ==> InSingle(s).bytes[|InSingle(s).bytes| - 1] != 92
    ensures InSingle(s).Token? && InSingle(s).bytes == [] ==> s[0] == 39
  {
    if s == [] || s[0] == SQUOTE {
    } else if s[0] == BACKSLASH && |s| > 1 && s[1] == SQUOTE {
      SingleEndsPlain(s[2..]);
    } else {
      SingleEndsPlain(s[1..]);
    }
  }

  /** Each single quote in a text behind a backslash: then single quotes hold the text if and
      only if it does not end in a backslash. */
  lemma SingleFormIsReadIff(p: seq<byte>, rest: seq<byte>)
    requires rest == [] || White(rest[0])
    ensures InSingle(SingleForm(p) + ([39] + rest)) == Token(p, rest) <==> p == [] || p[|p| - 1] != 92
  {
    if p == [] || p[|p| - 1] != 92 {
      SingleFormIsRead(p, rest);
    } else {
      NotHeld(SingleForm(p) + ([39] + rest), p, rest);
    }
  }

  lemma NotHeld(s: seq<byte>, p: seq<byte>, rest: seq<byte>)
    requires p != [] && p[|p| - 1] == 92
    ensures InSingle(s) != Token(p, rest)
  {
    SingleEndsPlain(s);
  }

  /** No other way of writing helps. */
  lemma SingleHoldsIff(p: seq<byte>, rest: seq<byte>)
    requires rest == [] || White(rest[0])
    ensures (exists s :: InSingle(s) == Token(p, rest)) <==> p == [] || p[|p| - 1] != 92
  {
    if s :| InSingle(s) == Token(p, rest) {
      SingleEndsPlain(s);
    }
    if p == [] || p[|p| - 1] != 92 {
      SingleFormIsRead(p, rest);
    }
  }

  // ---------- without quotes ----------

  /** Outside quotes this byte ends an argument. */
  predicate Ends(c: byte) {
    c == 9 || c == 10 || c == 13 || c == 32
  }

  /** Outside quotes this byte stands for itself. */
  predicate Bare(c: byte) {
    !Ends(c) && c != 34 && c != 39
  }

  /** A run of such bytes is collected; a space, tab, line feed or carriage return ends the
      argument, and a quote goes on with it. */
  lemma {:induction false} BareIsRead(w: seq<byte>, s: seq<byte>)
    requires forall c :: c in w ==> Bare(c)
    ensures s == [] ==> Outside(w + s) == Token(w, [])
    ensures s != [] && Ends(s[0]) ==> Outside(w + s) == Token(w, s[1..])
    ensures s != [] && s[0] == 34 ==> Outside(w + s) == Prepend(w, InDouble(s[1..]))
    ensures s != [] && s[0] == 39 ==> Outside(w + s) == Prepend(w, InSingle(s[1..]))
  {
    var t := w + s;
    if w == [] {
      assert t == s;
      if s != [] {
        PrependNothing(InDouble(s[1..]));
        PrependNothing(InSingle(s[1..]));
      }
    } else {
      BareIsRead(w[1..], s);
      assert w[0] in w && t[0] == w[0] && t[1..] == w[1..] + s;
      assert Outside(t) == Prepend([w[0]], Outside(w[1..] + s));
      assert [w[0]] + w[1..] == w;
      if s != [] {
        PrependTwice([w[0]], w[1..], InDouble(s[1..]));
        PrependTwice([w[0]], w[1..], InSingle(s[1..]));
      }
    }
  }

  // ---------- whole lines ----------

  /** How one argument is written: without quotes, or with its end between double or single
      quotes behind a word that may be empty. */
  datatype Style =
    | Unquoted
    | Doubled(word: nat, chunks: seq<seq<byte>>)
    | Singled(word: nat)

  ghost predicate CanWrite(style: Style, p: seq<byte>) {
    match style
    case Unquoted => p != [] && IsWord(p)
    case Doubled(word, chunks) =>
      && word <= |p| && IsWord(p[..word]) && |chunks| == |p| - word
      && forall i :: 0 <= i < |chunks| ==> Spells(chunks[i], p[word + i])
    case Singled(word) => word <= |p| && IsWord(p[..word]) && (word == |p| || p[|p| - 1] != 92)
  }

  /** Bytes that can stand outside quotes at the start of an argument: vertical tabs and form
      feeds cannot come first, where they count as blanks. */
  ghost predicate IsWord(w: seq<byte>) {
    (forall c :: c in w ==> Bare(c)) && (w != [] ==> w[0] != 11 && w[0] != 12)
  }

  function Written(style: Style, p: seq<byte>): seq<byte>
    requires style.Unquoted? || style.word <= |p|
  {
    match style
    case Unquoted => p
    case Doubled(word, chunks) => p[..word] + ([34] + (Flat(chunks) + [34]))
    case Singled(word) => p[..word] + ([39] + (SingleForm(p[word..]) + [39]))
  }

  /** What may follow an argument on a line. */
  predicate Follows(style: Style, rest: seq<byte>) {
    rest == [] || (White(rest[0]) && (style.Unquoted? ==> rest[0] != 11 && rest[0] != 12))
  }

  /** A word with a quoted text behind it. */
  lemma QuotedBehindWord(w: seq<byte>, q: byte, body: seq<byte>, text: seq<byte>, rest: seq<byte>)
    requires (forall c :: c in w ==> Bare(c)) && (q == 34 || q == 39)
    requires (if q == 34 then InDouble(body + ([q] + rest)) else InSingle(body + ([q] + rest))) == Token(text, rest)
    ensures Outside(w + ([q] + (body + [q])) + rest) == Token(w + text, rest)
  {
    var tail := [q] + (body + ([q] + rest));
    QuotedTail(w, q, body, rest);
    BareIsRead(w, tail);
    assert tail[0] == q && tail[1..] == body + ([q] + rest);
  }

  lemma DoubledIsRead(word: nat, chunks: seq<seq<byte>>, p: seq<byte>, rest: seq<byte>)
    requires CanWrite(Doubled(word, chunks), p) && (rest == [] || White(rest[0]))
    ensures Outside(Written(Doubled(word, chunks), p) + rest) == Token(p, rest)
  {
    assert forall i :: 0 <= i < |chunks| ==> p[word..][i] == p[word + i];
    DoubleReadsSpellings(chunks, p[word..], rest);
    QuotedBehindWord(p[..word], 34, Flat(chunks), p[word..], rest);
    assert p[..word] + p[word..] == p;
  }

  lemma SingledIsRead(word: nat, p: seq<byte>, rest: seq<byte>)
    requires CanWrite(Singled(word), p) && (rest == [] || White(rest[0]))
    ensures Outside(Written(Singled(word), p) + rest) == Token(p, rest)
  {
    assert word < |p| ==> p[word..][|p| - word - 1] == p[|p| - 1];
    SingledBehindWord(p[..word], p[word..], rest);
    assert p[..word] + p[word..] == p;
  }

  lemma SingledBehindWord(w: seq<byte>, text: seq<byte>, rest: seq<byte>)
    requires forall c :: c in w ==> Bare(c)
    requires (text == [] || text[|text| - 1] != 92) && (rest == [] || White(rest[0]))
    ensures Outside(w + ([39] + (SingleForm(text) + [39])) + rest) == Token(w + text, rest)
  {
    SingleFormIsRead(text, rest);
    QuotedBehindWord(w, 39, SingleForm(text), text, rest);
  }

  lemma WrittenIsRead(style: Style, p: seq<byte>, rest: seq<byte>)
    requires CanWrite(style, p) && Follows(style, rest)
    ensures Outside(Written(style, p) + rest) == Token(p, if style.Unquoted? && rest != [] then rest[1..] else rest)
  {
    match style
    case Unquoted => BareIsRead(p, rest);
    case Doubled(word, chunks) => DoubledIsRead(word, chunks, p, rest);
    case Singled(word) => SingledIsRead(word, p, rest);
  }

  lemma QuotedTail(w: seq<byte>, q: byte, body: seq<byte>, rest: seq<byte>)
    ensures w + ([q] + (body + [q])) + rest == w + ([q] + (body + ([q] + rest)))
  {
    Regroup(body, [q], rest);
    Regroup([q], body + [q], rest);
    Regroup(w, [q] + (body + [q]), rest);
  }

  /** The arguments one after the other, each followed by its gap. */
  function Layout(styles: seq<Style>, args: seq<seq<byte>>, gaps: seq<seq<byte>>): seq<byte>
    requires |styles| == |args| == |gaps|
    requires forall i :: 0 <= i < |args| ==> styles[i].Unquoted? || styles[i].word <= |args[i]|
  {
    if args == [] then []
    else Written(styles[0], args[0]) + (gaps[0] + Layout(styles[1..], args[1..], gaps[1..]))
  }

  ghost predicate AllWhite(s: seq<byte>) {
    forall i :: 0 <= i < |s| ==> White(s[i])
  }

  /** Each argument can be written in its style, and each gap is white space that can follow
      it; only the last one may be empty. */
  ghost predicate Writable(styles: seq<Style>, args: seq<seq<byte>>, gaps: seq<seq<byte>>) {
    && |styles| == |args| == |gaps|
    && forall i :: 0 <= i < |args| ==>
      CanWrite(styles[i], args[i]) && AllWhite(gaps[i]) && Follows(styles[i], gaps[i]) && (i < |args| - 1 ==> gaps[i] != [])
  }

  lemma WritableTail(styles: seq<Style>, args: seq<seq<byte>>, gaps: seq<seq<byte>>)
    requires Writable(styles, args, gaps) && args != []
    ensures Writable(styles[1..], args[1..], gaps[1..])
  {
    forall i | 0 <= i < |args| - 1
      ensures styles[1..][i] == styles[i + 1] && args[1..][i] == args[i + 1] && gaps[1..][i] == gaps[i + 1]
    {
    }
  }

  /** An argument never begins with white space. */
  lemma WrittenBegins(style: Style, p: seq<byte>, rest: seq<byte>)
    requires CanWrite(style, p)
    ensures var s := Written(style, p) + rest; s != [] && !White(s[0])
  {
    var w := if style.Unquoted? then p else p[..style.word];
    assert w != [] ==> w[0] in w && (Written(style, p) + rest)[0] == w[0];
  }

  lemma WhiteIsSkipped(gap: seq<byte>, s: seq<byte>)
    requires AllWhite(gap) && (s == [] || !White(s[0]))
    ensures SkipBlanks(gap + s) == s
  {
    BlanksAreSkipped(gap, s);
  }

  /** The blanks left in front of the next argument: the byte that ends an unquoted argument
      is gone. */
  function Left(style: Style, gap: seq<byte>): seq<byte> {
    if style.Unquoted? && gap != [] then gap[1..] else gap
  }

  lemma FirstTokenIsRead(lead: seq<byte>, t: seq<byte>, p: seq<byte>, rest: seq<byte>, args: seq<seq<byte>>)
    requires AllWhite(lead) && t != [] && !White(t[0])
    requires Outside(t) == Token(p, rest) && ParseLine(rest) == Some(args)
    ensures ParseLine(lead + t) == Some([p] + args)
  {
    WhiteIsSkipped(lead, t);
  }

  lemma WhatIsLeft(style: Style, gap: seq<byte>, later: seq<byte>)
    requires gap == [] ==> later == []
    ensures var rest := gap + later;
      (if style.Unquoted? && rest != [] then rest[1..] else rest) == Left(style, gap) + later
  {
  }

  lemma FirstIsRead(lead: seq<byte>, style: Style, p: seq<byte>, gap: seq<byte>, later: seq<byte>, args: seq<seq<byte>>)
    requires AllWhite(lead) && CanWrite(style, p) && Follows(style, gap) && (gap == [] ==> later == [])
    requires ParseLine(Left(style, gap) + later) == Some(args)
    ensures ParseLine(lead + (Written(style, p) + (gap + later))) == Some([p] + args)
  {
    var rest := gap + later;
    WrittenBegins(style, p, rest);
    WrittenIsRead(style, p, rest);
    WhatIsLeft(style, gap, later);
    FirstTokenIsRead(lead, Written(style, p) + rest, p, Left(style, gap) + later, args);
  }

  /** Every line laid out from arguments in any mixture of styles parses to the arguments. */
  lemma {:induction false} EveryStyleIsRead(lead: seq<byte>, styles: seq<Style>, args: seq<seq<byte>>, gaps: seq<seq<byte>>)
    requires AllWhite(lead) && Writable(styles, args, gaps)
    ensures ParseLine(lead + Layout(styles, args, gaps)) == Some(args)
    decreases |args|
  {
    if args == [] {
      WhiteIsSkipped(lead, []);
    } else {
      var later := Layout(styles[1..], args[1..], gaps[1..]);
      WritableTail(styles, args, gaps);
      EveryStyleIsRead(Left(styles[0], gaps[0]), styles[1..], args[1..], gaps[1..]);
      FirstIsRead(lead, styles[0], args[0], gaps[0], later, args[1..]);
      assert [args[0]] + args[1..] == args;
    }
  }
}
