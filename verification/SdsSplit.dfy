/** sdssplitlen and sdsjoinsds, and how far each undoes the other. */
module SdsSplit {
  import opened Wrappers
  import opened SdsHeader
  import opened Sds

  // ---------- occurrences ----------

  predicate Occurs(s: seq<byte>, sep: seq<byte>, k: nat) {
    k + |sep| <= |s| && s[k..k + |sep|] == sep
  }

  function FirstOccurrence(s: seq<byte>, sep: seq<byte>, from: nat): (r: Option<nat>)
    requires from <= |s|
    ensures r.Some? ==> from <= r.value && Occurs(s, sep, r.value)
    ensures forall i :: from <= i < (if r.Some? then r.value else |s| + 1) ==> !Occurs(s, sep, i) || sep == []
    decreases |s| - from
  {
    if Occurs(s, sep, from) then Some(from)
    else if from == |s| then None
    else FirstOccurrence(s, sep, from + 1)
  }

  ghost predicate Free(s: seq<byte>, sep: seq<byte>) {
    forall i :: 0 <= i <= |s| ==> !Occurs(s, sep, i)
  }

  // ---------- splitting and joining ----------

  /** Cutting at each separator, left to right. */
  function Split(s: seq<byte>, sep: seq<byte>): (tokens: seq<seq<byte>>)
    requires sep != []
    ensures tokens != []
    decreases |s|
  {
    match FirstOccurrence(s, sep, 0)
    case None => [s]
    case Some(k) => [s[..k]] + Split(s[k + |sep|..], sep)
  }

  function Join(tokens: seq<seq<byte>>, sep: seq<byte>): seq<byte> {
    if tokens == [] then []
    else if |tokens| == 1 then tokens[0]
    else tokens[0] + (sep + Join(tokens[1..], sep))
  }

  /** Joining the pieces of a split restores the string. */
  lemma {:induction false} JoinUndoesSplit(s: seq<byte>, sep: seq<byte>)
    requires sep != []
    ensures Join(Split(s, sep), sep) == s
    decreases |s|
  {
    var first := FirstOccurrence(s, sep, 0);
    if first.Some? {
      var k := first.value;
      var rest := s[k + |sep|..];
      JoinUndoesSplit(rest, sep);
      assert Split(s, sep)[1..] == Split(rest, sep);
      assert s == s[..k] + (s[k..k + |sep|] + rest);
    }
  }

  /** A prefix that ends before the first occurrence can end contains none. */
  lemma PrefixIsFree(s: seq<byte>, sep: seq<byte>, k: nat)
    requires sep != [] && k <= |s| && forall i :: 0 <= i < k ==> !Occurs(s, sep, i)
    ensures Free(s[..k], sep)
  {
    forall i | 0 <= i <= k
      ensures !Occurs(s[..k], sep, i)
    {
      if Occurs(s[..k], sep, i) {
        assert s[..k][i..i + |sep|] == s[i..i + |sep|];
        assert Occurs(s, sep, i);
      }
    }
  }

  /** No piece of a split contains the separator. */
  lemma {:induction false} PiecesAreFree(s: seq<byte>, sep: seq<byte>)
    requires sep != []
    ensures forall t :: t in Split(s, sep) ==> Free(t, sep)
    decreases |s|
  {
    var first := FirstOccurrence(s, sep, 0);
    if first.Some? {
      PrefixIsFree(s, sep, first.value);
      PiecesAreFree(s[first.value + |sep|..], sep);
    }
  }

  /** In each token that is followed by a separator, the separator does not show before
      that place, not even overlapping it; the last token contains none. */
  ghost predicate Separable(tokens: seq<seq<byte>>, sep: seq<byte>) {
    forall i :: 0 <= i < |tokens| ==>
      if i < |tokens| - 1 then FirstOccurrence(tokens[i] + sep, sep, 0) == Some(|tokens[i]|)
      else Free(tokens[i], sep)
  }

  /** An occurrence that starts before the end of t does not reach beyond t and sep. */
  lemma OccursEarly(t: seq<byte>, sep: seq<byte>, rest: seq<byte>, k: nat)
    requires k <= |t|
    ensures Occurs(t + (sep + rest), sep, k) <==> Occurs(t + sep, sep, k)
  {
    Regroup(t, sep, rest);
    var long, short := t + sep + rest, t + sep;
    assert long[k..k + |sep|] == short[k..k + |sep|];
  }

  lemma FirstInJoin(t: seq<byte>, sep: seq<byte>, rest: seq<byte>)
    requires sep != []
    ensures FirstOccurrence(t + (sep + rest), sep, 0).Some?
    ensures FirstOccurrence(t + (sep + rest), sep, 0) == Some(|t|)
      <==> FirstOccurrence(t + sep, sep, 0) == Some(|t|)
  {
    var long, short := t + (sep + rest), t + sep;
    assert Occurs(short, sep, |t|);
    forall k | 0 <= k <= |t|
      ensures Occurs(long, sep, k) <==> Occurs(short, sep, k)
    {
      OccursEarly(t, sep, rest, k);
    }
    assert Occurs(long, sep, |t|);
  }

  /** Splitting behind the first token: the first piece is that token exactly when the
      separator is first found behind it. */
  lemma {:induction false} SplitOfTwo(t: seq<byte>, sep: seq<byte>, rest: seq<byte>)
    requires sep != []
    ensures FirstOccurrence(t + sep, sep, 0) == Some(|t|) ==> Split(t + (sep + rest), sep) == [t] + Split(rest, sep)
    ensures FirstOccurrence(t + sep, sep, 0) != Some(|t|) ==> Split(t + (sep + rest), sep)[0] != t
  {
    FirstInJoin(t, sep, rest);
    var joined := t + (sep + rest);
    var k := FirstOccurrence(joined, sep, 0).value;
    if k == |t| {
      assert joined[..k] == t;
      assert joined[k + |sep|..] == rest;
    } else {
      assert |joined[..k]| == k;
    }
  }

  /** Splitting a join gives the tokens back if and only if they are separable. */
  lemma {:induction false} SplitUndoesJoinIff(tokens: seq<seq<byte>>, sep: seq<byte>)
    requires sep != [] && tokens != []
    ensures Split(Join(tokens, sep), sep) == tokens <==> Separable(tokens, sep)
    decreases |tokens|
  {
    if |tokens| == 1 {
      SplitOfOne(tokens[0], sep);
      assert tokens == [tokens[0]];
    } else {
      var t, later := tokens[0], tokens[1..];
      SplitOfTwo(t, sep, Join(later, sep));
      SplitUndoesJoinIff(later, sep);
      SeparableTail(tokens, sep);
      ConsCancels(tokens, Split(Join(later, sep), sep));
    }
  }

  lemma ConsCancels(tokens: seq<seq<byte>>, pieces: seq<seq<byte>>)
    requires tokens != []
    ensures [tokens[0]] + pieces == tokens <==> pieces == tokens[1..]
  {
    assert ([tokens[0]] + pieces)[1..] == pieces;
    assert tokens == [tokens[0]] + tokens[1..];
  }

  lemma {:induction false} SplitOfOne(t: seq<byte>, sep: seq<byte>)
    requires sep != []
    ensures Split(t, sep) == [t] <==> Free(t, sep)
  {
    var first := FirstOccurrence(t, sep, 0);
    if first.Some? {
      assert |Split(t, sep)| > 1;
    }
  }

  lemma SeparableTail(tokens: seq<seq<byte>>, sep: seq<byte>)
    requires |tokens| > 1
    ensures Separable(tokens, sep) <==>
      FirstOccurrence(tokens[0] + sep, sep, 0) == Some(|tokens[0]|) && Separable(tokens[1..], sep)
  {
    var tail := tokens[1..];
    if Separable(tokens, sep) {
      forall i | 0 <= i < |tail|
        ensures if i < |tail| - 1 then FirstOccurrence(tail[i] + sep, sep, 0) == Some(|tail[i]|) else Free(tail[i], sep)
      {
        assert tail[i] == tokens[i + 1];
      }
    }
    if FirstOccurrence(tokens[0] + sep, sep, 0) == Some(|tokens[0]|) && Separable(tail, sep) {
      forall i | 0 <= i < |tokens|
        ensures if i < |tokens| - 1 then FirstOccurrence(tokens[i] + sep, sep, 0) == Some(|tokens[i]|) else Free(tokens[i], sep)
      {
        if i > 0 {
          assert tokens[i] == tail[i - 1];
        }
      }
    }
  }

  /** A separator no proper suffix of which is also a prefix; every single byte is one. */
  ghost predicate Unbordered(sep: seq<byte>) {
    forall b :: 0 < b < |sep| ==> sep[..b] != sep[|sep| - b..]
  }

  /** With such a separator, tokens that do not contain it are separable. */
  lemma FreeTokensAreSeparable(tokens: seq<seq<byte>>, sep: seq<byte>)
    requires sep != [] && Unbordered(sep) && forall t :: t in tokens ==> Free(t, sep)
    ensures Separable(tokens, sep)
  {
    forall i | 0 <= i < |tokens| - 1
      ensures FirstOccurrence(tokens[i] + sep, sep, 0) == Some(|tokens[i]|)
    {
      FreeThenFirst(tokens[i], sep);
    }
  }

  /** An occurrence in t and sep that fits into t is one in t. */
  lemma OccursInside(t: seq<byte>, sep: seq<byte>, k: nat)
    ensures k + |sep| <= |t| && Occurs(t + sep, sep, k) ==> Occurs(t, sep, k)
  {
    if k + |sep| <= |t| {
      assert (t + sep)[k..k + |sep|] == t[k..k + |sep|];
    }
  }

  /** An occurrence in t and sep that overlaps both makes the end of sep its beginning. */
  lemma OccursAcross(t: seq<byte>, sep: seq<byte>, k: nat)
    requires |t| < k + |sep| && k < |t|
    ensures var b := k + |sep| - |t|; Occurs(t + sep, sep, k) ==> sep[..b] == sep[|sep| - b..]
  {
    var s, b := t + sep, k + |sep| - |t|;
    assert s[|t|..|t| + b] == sep[..b];
    assert s[k..k + |sep|][|sep| - b..] == s[|t|..|t| + b];
  }

  lemma FreeNotEarly(t: seq<byte>, sep: seq<byte>, k: nat)
    requires sep != [] && Unbordered(sep) && Free(t, sep) && k < |t|
    ensures !Occurs(t + sep, sep, k)
  {
    OccursInside(t, sep, k);
    if |t| < k + |sep| {
      OccursAcross(t, sep, k);
    }
  }

  lemma FreeThenFirst(t: seq<byte>, sep: seq<byte>)
    requires sep != [] && Unbordered(sep) && Free(t, sep)
    ensures FirstOccurrence(t + sep, sep, 0) == Some(|t|)
  {
    assert (t + sep)[|t|..|t| + |sep|] == sep;
    assert Occurs(t + sep, sep, |t|);
    forall k | 0 <= k < |t|
      ensures !Occurs(t + sep, sep, k)
    {
      FreeNotEarly(t, sep, k);
    }
  }

  ghost predicate AllFree(tokens: seq<seq<byte>>, sep: seq<byte>) {
    forall t :: t in tokens ==> Free(t, sep)
  }

  /** If the last b bytes of a separator are also its first, then what comes before them,
      followed by the separator, begins with it. */
  lemma BorderIsFoundEarly(sep: seq<byte>, b: nat)
    requires 0 < b < |sep| && sep[..b] == sep[|sep| - b..]
    ensures AllFree([sep[..|sep| - b], []], sep) && !Separable([sep[..|sep| - b], []], sep)
  {
    var t := sep[..|sep| - b];
    var tokens: seq<seq<byte>> := [t, []];
    var s := t + sep;
    assert s[..|sep|] == t + sep[..b] == sep;
    assert s[0..0 + |sep|] == sep;
    assert Occurs(s, sep, 0);
    assert tokens[0] + sep == s;
  }

  /** Splitting a join gives tokens that do not contain the separator back, whatever they
      are, if and only if the separator does not overlap itself. */
  lemma FreeTokensSplitIff(sep: seq<byte>)
    requires sep != []
    ensures (forall tokens: seq<seq<byte>> :: tokens != [] && AllFree(tokens, sep) ==> Split(Join(tokens, sep), sep) == tokens)
      <==> Unbordered(sep)
  {
    forall tokens: seq<seq<byte>> | tokens != [] && AllFree(tokens, sep) && Unbordered(sep)
      ensures Split(Join(tokens, sep), sep) == tokens
    {
      FreeTokensAreSeparable(tokens, sep);
      SplitUndoesJoinIff(tokens, sep);
    }
    if !Unbordered(sep) {
      var b :| 0 < b < |sep| && sep[..b] == sep[|sep| - b..];
      var tokens: seq<seq<byte>> := [sep[..|sep| - b], []];
      BorderIsFoundEarly(sep, b);
      SplitUndoesJoinIff(tokens, sep);
    }
  }

  /** A separator that overlaps itself can be found too early. */
  lemma OverlapSplitsEarly()
    ensures Free([97], [97, 97]) && Free([98], [97, 97])
    ensures Split(Join([[97], [98]], [97, 97]), [97, 97]) != [[97], [98]]
  {
    var sep: seq<byte>, tokens: seq<seq<byte>> := [97, 97], [[97], [98]];
    SplitUndoesJoinIff(tokens, sep);
    var s: seq<byte> := [97, 97, 97];
    assert tokens[0] + sep == s;
    assert Occurs(s, sep, 0);
  }

  // ---------- sdssplitlen ----------

  /** What sdssplitlen returns: nothing for an empty string or separator. */
  function SplitOrNone(s: seq<byte>, sep: seq<byte>): seq<seq<byte>> {
    if sep == [] || s == [] then [] else Split(s, sep)
  }

  /** sdssplitlen gives back what was joined if and only if the tokens are separable and do
      not join to the empty string. */
  lemma SplitLenUndoesJoinIff(tokens: seq<seq<byte>>, sep: seq<byte>)
    requires sep != [] && tokens != []
    ensures SplitOrNone(Join(tokens, sep), sep) == tokens <==> Join(tokens, sep) != [] && Separable(tokens, sep)
  {
    SplitUndoesJoinIff(tokens, sep);
  }

  /** Taking one separator off the front of what is left. */
  lemma {:induction false} SplitStep(s: seq<byte>, sep: seq<byte>, k: nat)
    requires sep != [] && Occurs(s, sep, k) && forall i :: 0 <= i < k ==> !Occurs(s, sep, i)
    ensures Split(s, sep) == [s[..k]] + Split(s[k + |sep|..], sep)
  {
    assert FirstOccurrence(s, sep, 0) == Some(k);
  }

  /** The scan for separators of s stands at j: found is cut off, the next token starts at
      start, and no separator lies between start and j. */
  ghost predicate Scanned(s: seq<byte>, sep: seq<byte>, found: seq<seq<byte>>, start: nat, j: nat)
    requires sep != []
  {
    && start <= j && start <= |s|
    && found + Split(s[start..], sep) == Split(s, sep)
    && forall i :: 0 <= i < j - start ==> !Occurs(s[start..], sep, i)
  }

  lemma OccursShifted(s: seq<byte>, sep: seq<byte>, start: nat, j: nat)
    requires start <= j && start <= |s|
    ensures Occurs(s[start..], sep, j - start) <==> Occurs(s, sep, j)
  {
    if j + |sep| <= |s| {
      assert s[start..][j - start..j - start + |sep|] == s[j..j + |sep|];
    }
  }

  lemma {:induction false} ScanFinds(s: seq<byte>, sep: seq<byte>, found: seq<seq<byte>>, start: nat, j: nat)
    requires sep != [] && Scanned(s, sep, found, start, j) && Occurs(s, sep, j)
    ensures Scanned(s, sep, found + [s[start..j]], j + |sep|, j + |sep|)
  {
    OccursShifted(s, sep, start, j);
    SplitStep(s[start..], sep, j - start);
    assert s[start..][..j - start] == s[start..j] && s[start..][j - start + |sep|..] == s[j + |sep|..];
    Regroup(found, [s[start..j]], Split(s[j + |sep|..], sep));
  }

  lemma {:induction false} ScanMisses(s: seq<byte>, sep: seq<byte>, found: seq<seq<byte>>, start: nat, j: nat)
    requires sep != [] && Scanned(s, sep, found, start, j) && !Occurs(s, sep, j)
    ensures Scanned(s, sep, found, start, j + 1)
  {
    OccursShifted(s, sep, start, j);
  }

  /** Compares at position j, with the short cut for one-byte separators. */
  method Matches(s: seq<byte>, sep: seq<byte>, j: nat) returns (matches: bool)
    requires sep != [] && j + |sep| <= |s|
    ensures matches == Occurs(s, sep, j)
  {
    matches := (|sep| == 1 && s[j] == sep[0]) || s[j..j + |sep|] == sep;
  }

  lemma {:induction false} ScanEnds(s: seq<byte>, sep: seq<byte>, found: seq<seq<byte>>, start: nat, j: nat)
    requires sep != [] && Scanned(s, sep, found, start, j) && j + |sep| > |s|
    ensures found + [s[start..]] == Split(s, sep)
  {
    assert FirstOccurrence(s[start..], sep, 0) == None;
  }

  /** realloc of the token array to more slots. */
  method Regrow(tokens: array<Sds?>, slots: nat) returns (grown: array<Sds?>)
    requires tokens.Length <= slots
    ensures fresh(grown) && grown.Length == slots && grown[..tokens.Length] == tokens[..]
  {
    grown := new Sds?[slots](_ => null);
    forall i | 0 <= i < tokens.Length {
      grown[i] := tokens[i];
    }
  }

  /** Makes room for one more token besides the final one. */
  method Reserve(tokens: array<Sds?>, elements: nat, ghost held: seq<Sds>, ghost found: seq<seq<byte>>)
    returns (roomy: array<Sds?>)
    requires 5 <= tokens.Length && elements + 1 <= tokens.Length
    requires tokens[..elements] == held && Hold(held, found) && Separate(held)
    ensures roomy == tokens || fresh(roomy)
    ensures roomy.Length >= 5 && elements + 2 <= roomy.Length
    ensures roomy[..elements] == held && Hold(held, found) && Separate(held)
  {
    var slots := tokens.Length;
    roomy := tokens;
    if slots < elements + 2 {
      slots := slots * 2;
      roomy := Regrow(tokens, slots);
      assert roomy[..elements] == roomy[..tokens.Length][..elements];
    }
  }

  /** Puts a new string with these bytes into the next slot. */
  method Store(tokens: array<Sds?>, elements: nat, bytes: seq<byte>, ghost held: seq<Sds>, ghost found: seq<seq<byte>>)
    returns (ghost held': seq<Sds>)
    requires elements < tokens.Length && NewFits(|bytes|)
    requires tokens[..elements] == held && Hold(held, found) && Separate(held)
    modifies tokens
    ensures tokens[..elements + 1] == held' && Hold(held', found + [bytes])
    ensures Separate(held')
    ensures forall t :: t in held' ==> t in held || (fresh(t) && fresh(t.buf))
  {
    var token := new Sds.NewLen(From(bytes), |bytes|);
    tokens[elements] := token;
    held' := held + [token];
    assert token.Contents() == bytes[..|bytes|] == bytes;
    OneMore(held, found, token);
  }

  /** Stores the token that ends where a separator was found. */
  method TakeToken(s: seq<byte>, sep: seq<byte>, toks: array<Sds?>, elements: nat, start: nat, j: nat,
                   ghost held: seq<Sds>, ghost found: seq<seq<byte>>)
    returns (ghost held': seq<Sds>, ghost found': seq<seq<byte>>)
    requires sep != [] && Occurs(s, sep, j) && elements < toks.Length && NewFits(|s|)
    requires toks[..elements] == held && Hold(held, found) && Separate(held) && Scanned(s, sep, found, start, j)
    modifies toks
    ensures toks[..elements + 1] == held' && Hold(held', found') && Scanned(s, sep, found', j + |sep|, j + |sep|)
    ensures Separate(held')
    ensures forall t :: t in held' ==> t in held || (fresh(t) && fresh(t.buf))
  {
    ScanFinds(s, sep, found, start, j);
    held' := Store(toks, elements, s[start..j], held, found);
    found' := found + [s[start..j]];
  }

  /** One turn of the scan at position j. */
  method ScanTurn(s: seq<byte>, sep: seq<byte>, toks: array<Sds?>, elements: nat, start: nat, j: nat,
                  ghost held: seq<Sds>, ghost found: seq<seq<byte>>)
    returns (elements': nat, start': nat, j': nat, ghost held': seq<Sds>, ghost found': seq<seq<byte>>)
    requires sep != [] && j + |sep| <= |s| && elements < toks.Length && NewFits(|s|)
    requires toks[..elements] == held && Hold(held, found) && Separate(held) && Scanned(s, sep, found, start, j)
    modifies toks
    ensures j' > j && elements' <= elements + 1
    ensures toks[..elements'] == held' && Hold(held', found') && Scanned(s, sep, found', start', j')
    ensures Separate(held')
    ensures forall t :: t in held' ==> t in held || (fresh(t) && fresh(t.buf))
  {
    var matches := Matches(s, sep, j);
    if !matches {
      ScanMisses(s, sep, found, start, j);
      return elements, start, j + 1, held, found;
    }
    held', found' := TakeToken(s, sep, toks, elements, start, j, held, found);
    elements', start', j' := elements + 1, j + |sep|, j + |sep|;
  }

  /** The loop of sdssplitlen: all tokens but the last, and where that one starts. The
      bounds checks on the token array show that its growth keeps one slot ahead of every
      write. */
  method ScanAll(s: seq<byte>, sep: seq<byte>)
    returns (toks: array<Sds?>, elements: nat, start: nat, ghost held: seq<Sds>, ghost found: seq<seq<byte>>)
    requires sep != [] && NewFits(|s|)
    ensures fresh(toks) && elements < toks.Length && start <= |s|
    ensures toks[..elements] == held && Hold(held, found)
    ensures Separate(held) && forall t :: t in held ==> fresh(t) && fresh(t.buf)
    ensures found + [s[start..]] == Split(s, sep)
  {
    elements, start, held, found := 0, 0, [], [];
    var j := 0;
    toks := new Sds?[5](_ => null);
    assert s[0..] == s;
    while j < |s| - (|sep| - 1)
      invariant 0 <= j && fresh(toks) && 5 <= toks.Length && elements + 1 <= toks.Length
      invariant toks[..elements] == held && Hold(held, found)
      invariant Scanned(s, sep, found, start, j)
      invariant Separate(held) && forall t :: t in held ==> fresh(t) && fresh(t.buf)
      decreases |s| - j
    {
      toks := Reserve(toks, elements, held, found);
      elements, start, j, held, found := ScanTurn(s, sep, toks, elements, start, j, held, found);
    }
    ScanEnds(s, sep, found, start, j);
  }

  /** sdssplitlen on the first len bytes of s with the first seplen bytes of sep. */
  method SplitLen(s: seq<byte>, len: int, sep: seq<byte>, seplen: int)
    returns (tokens: array?<Sds?>, count: nat, ghost held: seq<Sds>)
    requires len <= |s| && seplen <= |sep| && (len >= 0 ==> NewFits(len))
    ensures tokens == null <==> len <= 0 || seplen < 1
    ensures tokens != null ==> Hold(held, Split(s[..len], sep[..seplen]))
    ensures Hold(held, SplitOrNone(if len < 0 then [] else s[..len], if seplen < 0 then [] else sep[..seplen]))
    ensures count == |held| && (tokens != null ==> count <= tokens.Length && tokens[..count] == held)
    ensures Separate(held) && forall t :: t in held ==> fresh(t) && fresh(t.buf)
  {
    if seplen < 1 || len <= 0 {
      return null, 0, [];
    }
    ghost var found;
    var start;
    tokens, count, start, held, found := ScanAll(s[..len], sep[..seplen]);
    assert s[start..len] == s[..len][start..];
    held := Store(tokens, count, s[start..len], held, found);
    count := count + 1;
  }

  // ---------- sdsjoinsds ----------

  /** sdsjoinsds on strings that hold these texts. The result is built by a run of appends,
      so for all but very long results its growth copies at most twice its length. */
  method JoinSds(argv: seq<Sds>, ghost texts: seq<seq<byte>>, sep: seq<byte>) returns (join: Sds)
    requires Hold(argv, texts) && Fits(|Join(texts, sep)|)
    ensures fresh(join) && fresh(join.buf) && join.Valid()
    ensures join.Contents() == Join(texts, sep)
    ensures CopiesTwiceAtMost(|Join(texts, sep)|) ==> join.moved <= 2 * |Join(texts, sep)|
  {
    join := new Sds.NewLen(From([]), 0);
    ghost var sizes: seq<nat> := [];
    ghost var target := Join(texts, sep);
    assert texts[0..] == texts;
    var j := 0;
    while j < |argv|
      invariant j <= |argv|
      invariant fresh(join) && fresh(join.buf) && join.Valid()
      invariant join.Contents() + Join(texts[j..], sep) == target
      invariant join.Growth() == AppendAll(sizes)
    {
      assert texts[j..][1..] == texts[j + 1..];
      Regroup(join.Contents(), texts[j], sep + Join(texts[j + 1..], sep));
      var text := argv[j].buf[..argv[j].Len()];
      assert text == texts[j];
      sizes := CatLogged(join, text, sizes, |target|);
      if j != |argv| - 1 {
        Regroup(join.Contents(), sep, Join(texts[j + 1..], sep));
        sizes := CatLogged(join, sep, sizes, |target|);
      }
      j := j + 1;
    }
    AppendAllLen(sizes);
    TwiceTheLengthIff(Total(sizes));
  }

  /** One append, recorded in the run of appends. */
  method CatLogged(join: Sds, t: seq<byte>, ghost sizes: seq<nat>, ghost total: nat) returns (ghost logged: seq<nat>)
    requires join.Valid() && join.Growth() == AppendAll(sizes)
    requires Fits(total) && join.Len() + |t| <= total
    modifies join, join.buf
    ensures join.Valid() && join.Contents() == old(join.Contents()) + t
    ensures join.Growth() == AppendAll(logged)
    ensures join.buf == old(join.buf) || fresh(join.buf)
  {
    FitsDownward(total, join.Len() + |t|);
    join.CatLen(t);
    logged := sizes + [|t|];
    assert logged[..|logged| - 1] == sizes;
  }
}
