/** sdscatfmt: the formatter that grows its buffer while it writes. */
module SdsFormat {
  import opened Wrappers
  import opened SdsHeader
  import opened Sds
  import opened Decimal

  const PERCENT: byte := 37

  /** One variable argument. */
  datatype Arg =
    | CStr(chars: seq<byte>)
    | SdsStr(bytes: seq<byte>)
    | Int(int)
    | LongLong(int)
    | UInt(nat)
    | ULongLong(nat)

  /** The values the C type of an argument can have. */
  predicate InRange(a: Arg) {
    match a
    case CStr(chars) => IsCString(chars)
    case SdsStr(_) => true
    case Int(i) => -0x8000_0000 <= i < 0x8000_0000
    case LongLong(i) => LLONG_MIN <= i <= LLONG_MAX
    case UInt(u) => u < 0x1_0000_0000
    case ULongLong(u) => u <= ULLONG_MAX
  }

  /** The conversion letters. */
  predicate IsConversion(c: byte) {
    c in {115, 83, 105, 73, 117, 85}  // s S i I u U
  }

  /** The argument has the type the letter asks for. */
  predicate Takes(c: byte, a: Arg) {
    match a
    case CStr(_) => c == 115
    case SdsStr(_) => c == 83
    case Int(_) => c == 105
    case LongLong(_) => c == 73
    case UInt(_) => c == 117
    case ULongLong(_) => c == 85
  }

  function Text(a: Arg): seq<byte>
    requires InRange(a)
  {
    match a
    case CStr(chars) => Chars(chars)
    case SdsStr(bytes) => bytes
    case Int(i) => Numeral(i)
    case LongLong(i) => Numeral(i)
    case UInt(u) => Numeral(u)
    case ULongLong(u) => Numeral(u)
  }

  /** The arguments suffice for the format, in order and by type. */
  predicate Matches(f: seq<byte>, args: seq<Arg>) {
    if f == [] then true
    else if f[0] != PERCENT || |f| == 1 then Matches(f[1..], args)
    else if IsConversion(f[1]) then
      args != [] && InRange(args[0]) && Takes(f[1], args[0]) && Matches(f[2..], args[1..])
    else Matches(f[2..], args)
  }

  /** The text a format and its arguments stand for. */
  function Render(f: seq<byte>, args: seq<Arg>): seq<byte>
    requires Matches(f, args)
  {
    if f == [] then []
    else if f[0] != PERCENT then [f[0]] + Render(f[1..], args)
    else if |f| == 1 then []
    else if IsConversion(f[1]) then Text(args[0]) + Render(f[2..], args[1..])
    else [f[1]] + Render(f[2..], args)
  }

  // ---------- what the rendering means ----------

  function Escaped(text: seq<byte>): seq<byte> {
    if text == [] then []
    else (if text[0] == PERCENT then [PERCENT, PERCENT] else [text[0]]) + Escaped(text[1..])
  }

  /** A text with its percent signs doubled is a format that prints the text. */
  lemma {:induction false} EscapedPrintsVerbatim(text: seq<byte>)
    ensures Matches(Escaped(text), []) && Render(Escaped(text), []) == text
  {
    if text != [] {
      EscapedPrintsVerbatim(text[1..]);
      var f := Escaped(text);
      if text[0] == PERCENT {
        assert f[2..] == Escaped(text[1..]);
      } else {
        assert f[1..] == Escaped(text[1..]);
      }
    }
  }

  /** The format ends in the middle of a directive. */
  predicate Open(f: seq<byte>) {
    if f == [] then false
    else if f[0] != PERCENT then Open(f[1..])
    else |f| == 1 || Open(f[2..])
  }

  /** Formats compose: printing with the concatenation of two formats is printing with one
      after the other, unless the first breaks off after a percent sign. */
  lemma {:induction false} RenderComposes(f: seq<byte>, args: seq<Arg>, g: seq<byte>, more: seq<Arg>)
    requires Matches(f, args) && |args| == Conversions(f) && !Open(f)
    requires Matches(g, more)
    ensures Matches(f + g, args + more)
    ensures Render(f + g, args + more) == Render(f, args) + Render(g, more)
    decreases |f|
  {
    var fg := f + g;
    if f == [] {
      assert fg == g && args + more == more;
    } else if f[0] != PERCENT {
      assert fg[0] == f[0] && fg[1..] == f[1..] + g;
      RenderComposes(f[1..], args, g, more);
      Regroup([f[0]], Render(f[1..], args), Render(g, more));
    } else {
      assert fg[0] == f[0] && fg[1] == f[1] && fg[2..] == f[2..] + g;
      if IsConversion(f[1]) {
        var all := args + more;
        assert all[0] == args[0] && all[1..] == args[1..] + more;
        RenderComposes(f[2..], args[1..], g, more);
        Regroup(Text(args[0]), Render(f[2..], args[1..]), Render(g, more));
      } else {
        RenderComposes(f[2..], args, g, more);
        Regroup([f[1]], Render(f[2..], args), Render(g, more));
      }
    }
  }

  /** How many arguments a format consumes. */
  function Conversions(f: seq<byte>): nat {
    if f == [] then 0
    else if f[0] != PERCENT || |f| == 1 then Conversions(f[1..])
    else (if IsConversion(f[1]) then 1 else 0) + Conversions(f[2..])
  }

  // ---------- what each directive prints ----------

  /** %i, %I, %u and %U print the number in its usual form: %i for every int, %I for every
      long long, %u for every unsigned int, %U for every unsigned long long. */
  lemma NumbersPrint(value: int)
    ensures -0x8000_0000 <= value <= 0x7fff_ffff ==>
      && Matches([37, 105], [Int(value)])
      && var s := Render([37, 105], [Int(value)]); Canonical(s) && Read(s) == value
    ensures -0x8000_0000_0000_0000 <= value <= 0x7fff_ffff_ffff_ffff ==>
      && Matches([37, 73], [LongLong(value)])
      && var s := Render([37, 73], [LongLong(value)]); Canonical(s) && Read(s) == value
    ensures 0 <= value <= 0xffff_ffff ==>
      && Matches([37, 117], [UInt(value)])
      && var s := Render([37, 117], [UInt(value)]); Canonical(s) && Read(s) == value
    ensures 0 <= value <= 0xffff_ffff_ffff_ffff ==>
      && Matches([37, 85], [ULongLong(value)])
      && var s := Render([37, 85], [ULongLong(value)]); Canonical(s) && Read(s) == value
  {
    NumeralIsCanonical(value, Numeral(value));
    if -0x8000_0000 <= value <= 0x7fff_ffff {
      OneArgument(105, Int(value));
    }
    if -0x8000_0000_0000_0000 <= value <= 0x7fff_ffff_ffff_ffff {
      OneArgument(73, LongLong(value));
    }
    if 0 <= value <= 0xffff_ffff {
      OneArgument(117, UInt(value));
    }
    if 0 <= value <= 0xffff_ffff_ffff_ffff {
      OneArgument(85, ULongLong(value));
    }
  }

  lemma OneArgument(c: byte, a: Arg)
    requires IsConversion(c) && InRange(a) && Takes(c, a)
    ensures Matches([37, c], [a]) && Render([37, c], [a]) == Text(a)
  {
    var f: seq<byte> := [37, c];
    assert f[2..] == [] && [a][1..] == [];
    assert Matches(f[2..], []) && Render(f[2..], []) == [];
  }

  /** %s prints a C string up to its terminator, %S the bytes of a dynamic string. */
  lemma StringsPrint(chars: seq<byte>, bytes: seq<byte>)
    ensures IsCString(chars) ==> Matches([37, 115], [CStr(chars)]) && Render([37, 115], [CStr(chars)]) + [0] == chars
    ensures Matches([37, 83], [SdsStr(bytes)]) && Render([37, 83], [SdsStr(bytes)]) == bytes
  {
    if IsCString(chars) {
      OneArgument(115, CStr(chars));
    }
    OneArgument(83, SdsStr(bytes));
  }

  /** Any other character behind a percent sign prints itself and takes no argument, a percent
      sign at the end prints nothing, and any other character prints itself. */
  lemma OthersPrint(c: byte)
    ensures c !in {115, 83, 105, 73, 117, 85} ==> Matches([37, c], []) && Render([37, c], []) == [c]
    ensures Matches([37], []) && Render([37], []) == []
    ensures c != 37 ==> Matches([c], []) && Render([c], []) == [c]
  {
  }

  /** A letter takes no argument of another type, nor does any format print without the
      arguments it needs. */
  lemma LettersAreTyped(c: byte, a: Arg)
    ensures c in {115, 83, 105, 73, 117, 85} ==> !Matches([37, c], [])
    ensures Matches([37, c], [a]) && c in {115, 83, 105, 73, 117, 85} ==>
      if c == 115 then a.CStr? else if c == 83 then a.SdsStr? else if c == 105 then a.Int?
      else if c == 73 then a.LongLong? else if c == 117 then a.UInt? else a.ULongLong?
  {
  }

  // ---------- the loop ----------

  /** Appends t at position i, making room first if there is not enough. */
  method Emit(s: Sds, i: nat, t: seq<byte>) returns (i': nat)
    requires s.Shape() && i == s.Len()
    requires s.Avail() < |t| ==> Fits(i + |t|)
    modifies s, s.buf
    ensures s.Shape() && i' == s.Len()
    ensures s.Contents() == old(s.Contents()) + t
    ensures s.buf == old(s.buf) || fresh(s.buf)
  {
    if s.Avail() < |t| {
      s.MakeRoomFor(|t|);
    }
    i' := Fill(s, i, t);
  }

  /** Writes t behind the string, where there is room for it. */
  method Fill(s: Sds, i: nat, t: seq<byte>) returns (i': nat)
    requires s.Shape() && i == s.Len() && s.Avail() >= |t|
    modifies s, s.buf
    ensures s.Shape() && i' == s.Len()
    ensures s.Contents() == old(s.Contents()) + t
    ensures s.buf == old(s.buf)
  {
    s.Write(i, t);
    s.IncLen(|t|);
    i' := i + |t|;
    assert s.buf[..i] == old(s.Contents()) && s.buf[i..i'] == t;
    assert s.buf[..i'] == s.buf[..i] + s.buf[i..i'];
  }

  /** Appends one character where there is room for it. */
  method Put(s: Sds, i: nat, c: byte) returns (i': nat)
    requires s.Shape() && i == s.Len() && s.Avail() >= 1
    modifies s, s.buf
    ensures s.Shape() && i' == s.Len()
    ensures s.Contents() == old(s.Contents()) + [c]
    ensures s.buf == old(s.buf)
  {
    s.buf[i] := c;
    s.IncLen(1);
    i' := i + 1;
  }

  /** What the rest of the format at position f still has to print. */
  function Rest(fmt: seq<byte>, f: nat, args: seq<Arg>, arg: nat): seq<byte>
    requires f < |fmt| && arg <= |args| && Matches(fmt[f..|fmt| - 1], args[arg..])
  {
    Render(fmt[f..|fmt| - 1], args[arg..])
  }

  predicate MatchesFrom(fmt: seq<byte>, f: nat, args: seq<Arg>, arg: nat) {
    f < |fmt| && arg <= |args| && Matches(fmt[f..|fmt| - 1], args[arg..])
  }

  /** How one turn of the loop uses up the format. */
  lemma RestStep(fmt: seq<byte>, f: nat, args: seq<Arg>, arg: nat)
    requires IsCString(fmt) && MatchesFrom(fmt, f, args, arg) && fmt[f] != NUL
    ensures fmt[f] != PERCENT ==>
      MatchesFrom(fmt, f + 1, args, arg) && Rest(fmt, f, args, arg) == [fmt[f]] + Rest(fmt, f + 1, args, arg)
    ensures fmt[f] == PERCENT && fmt[f + 1] == NUL ==>
      Rest(fmt, f, args, arg) == [] && MatchesFrom(fmt, f + 1, args, arg) && Rest(fmt, f + 1, args, arg) == []
    ensures fmt[f] == PERCENT && fmt[f + 1] != NUL && !IsConversion(fmt[f + 1]) ==>
      MatchesFrom(fmt, f + 2, args, arg) && Rest(fmt, f, args, arg) == [fmt[f + 1]] + Rest(fmt, f + 2, args, arg)
    ensures fmt[f] == PERCENT && IsConversion(fmt[f + 1]) ==>
      && arg < |args| && InRange(args[arg]) && MatchesFrom(fmt, f + 2, args, arg + 1)
      && Rest(fmt, f, args, arg) == Text(args[arg]) + Rest(fmt, f + 2, args, arg + 1)
  {
    var n := |fmt| - 1;
    var rest := fmt[f..n];
    assert rest[1..] == fmt[f + 1..n];
    if |rest| > 1 {
      assert rest[1] == fmt[f + 1] && rest[2..] == fmt[f + 2..n];
    }
    if arg < |args| {
      assert args[arg..][1..] == args[arg + 1..];
    }
  }

  /** What is written so far, followed by what the rest of the format prints. */
  ghost function Outcome(s: Sds, fmt: seq<byte>, f: nat, args: seq<Arg>, arg: nat): seq<byte>
    reads s, s.buf
    requires s.Shape() && MatchesFrom(fmt, f, args, arg)
  {
    s.Contents() + Rest(fmt, f, args, arg)
  }

  /** The case of a percent sign. */
  method Directive(s: Sds, i: nat, fmt: seq<byte>, f: nat, args: seq<Arg>, arg: nat) returns (i': nat, f': nat, arg': nat)
    requires s.Shape() && i == s.Len() && s.Avail() >= 1
    requires IsCString(fmt) && MatchesFrom(fmt, f, args, arg) && fmt[f] == PERCENT
    requires Fits(|Outcome(s, fmt, f, args, arg)|)
    modifies s, s.buf
    ensures s.Shape() && i' == s.Len()
    ensures f' > f && MatchesFrom(fmt, f', args, arg')
    ensures Outcome(s, fmt, f', args, arg') == old(Outcome(s, fmt, f, args, arg))
    ensures s.buf == old(s.buf) || fresh(s.buf)
  {
    RestStep(fmt, f, args, arg);
    i', f', arg' := i, f, arg;
    ghost var written := s.Contents();
    var next := fmt[f + 1];
    if next != NUL {
      f' := f + 1;
      if IsConversion(next) {
        var t := ArgText(args[arg]);
        arg' := arg + 1;
        Regroup(written, t, Rest(fmt, f' + 1, args, arg'));
        FitsDownward(|Outcome(s, fmt, f, args, arg)|, i + |t|);
        i' := Emit(s, i, t);
      } else {
        Regroup(written, [next], Rest(fmt, f' + 1, args, arg));
        i' := Put(s, i, next);
      }
    }
    f' := f' + 1;
  }

  /** Any other character stands for itself. */
  method Plain(s: Sds, i: nat, fmt: seq<byte>, f: nat, ghost args: seq<Arg>, ghost arg: nat) returns (i': nat)
    requires s.Shape() && i == s.Len() && s.Avail() >= 1
    requires IsCString(fmt) && MatchesFrom(fmt, f, args, arg) && fmt[f] != PERCENT && fmt[f] != NUL
    modifies s, s.buf
    ensures s.Shape() && i' == s.Len()
    ensures MatchesFrom(fmt, f + 1, args, arg)
    ensures Outcome(s, fmt, f + 1, args, arg) == old(Outcome(s, fmt, f, args, arg))
    ensures s.buf == old(s.buf)
  {
    RestStep(fmt, f, args, arg);
    Regroup(s.Contents(), [fmt[f]], Rest(fmt, f + 1, args, arg));
    i' := Put(s, i, fmt[f]);
  }

  /** One turn of the loop: room for at least one character, then the character at f. */
  method Turn(s: Sds, i: nat, fmt: seq<byte>, f: nat, args: seq<Arg>, arg: nat) returns (i': nat, f': nat, arg': nat)
    requires s.Shape() && i == s.Len()
    requires IsCString(fmt) && MatchesFrom(fmt, f, args, arg) && fmt[f] != NUL
    requires Fits(|Outcome(s, fmt, f, args, arg)| + 1)
    modifies s, s.buf
    ensures s.Shape() && i' == s.Len()
    ensures f' > f && MatchesFrom(fmt, f', args, arg')
    ensures Outcome(s, fmt, f', args, arg') == old(Outcome(s, fmt, f, args, arg))
    ensures s.buf == old(s.buf) || fresh(s.buf)
  {
    FitsDownward(|Outcome(s, fmt, f, args, arg)| + 1, i + 1);
    FitsDownward(|Outcome(s, fmt, f, args, arg)| + 1, |Outcome(s, fmt, f, args, arg)|);
    if s.Avail() == 0 {
      s.MakeRoomFor(1);
    }
    if fmt[f] == PERCENT {
      i', f', arg' := Directive(s, i, fmt, f, args, arg);
    } else {
      i' := Plain(s, i, fmt, f, args, arg);
      f', arg' := f + 1, arg;
    }
  }

  /** sdscatfmt. fmt includes its terminator; every read of it stays in bounds. */
  method CatFmt(s: Sds, fmt: seq<byte>, args: seq<Arg>)
    requires s.Valid() && IsCString(fmt) && Matches(Chars(fmt), args)
    requires Fits(2 * s.Len() + 2 * |Chars(fmt)|)
    requires Fits(s.Len() + |Render(Chars(fmt), args)| + 1)
    modifies s, s.buf
    ensures s.Valid()
    ensures s.Contents() == old(s.Contents()) + Render(Chars(fmt), args)
    ensures s.buf == old(s.buf) || fresh(s.buf)
  {
    var initlen := s.Len();
    ghost var target := s.Contents() + Render(Chars(fmt), args);
    s.MakeRoomFor(initlen + (|fmt| - 1) * 2);
    var f := 0;
    var i := initlen;
    var arg := 0;
    assert fmt[0..|fmt| - 1] == Chars(fmt) && args[0..] == args;
    while fmt[f] != NUL
      invariant MatchesFrom(fmt, f, args, arg)
      invariant s.buf == old(s.buf) || fresh(s.buf)
      invariant s.Shape() && i == s.Len()
      invariant Outcome(s, fmt, f, args, arg) == target
      decreases |fmt| - f
    {
      i, f, arg := Turn(s, i, fmt, f, args, arg);
    }
    s.buf[i] := NUL;
  }

  /** The bytes one argument contributes, numbers by way of the 21-byte buffer. */
  method ArgText(a: Arg) returns (t: seq<byte>)
    requires InRange(a)
    ensures t == Text(a)
  {
    match a
    case CStr(chars) => t := chars[..|chars| - 1];
    case SdsStr(bytes) => t := bytes;
    case Int(num) =>
      var buf := new byte[SDS_LLSTR_SIZE];
      var l := Ll2Str(buf, num);
      t := buf[..l];
    case LongLong(num) =>
      var buf := new byte[SDS_LLSTR_SIZE];
      var l := Ll2Str(buf, num);
      t := buf[..l];
    case UInt(unum) =>
      var buf := new byte[SDS_LLSTR_SIZE];
      var l := Ull2Str(buf, unum);
      t := buf[..l];
    case ULongLong(unum) =>
      var buf := new byte[SDS_LLSTR_SIZE];
      var l := Ull2Str(buf, unum);
      t := buf[..l];
  }
}
