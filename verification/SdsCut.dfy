/** sdstrim and sdsrange: cutting a string down in place. */
module SdsCut {
  import opened Wrappers
  import opened Sds

  /** strchr(cset, c): the terminator of the set counts as one of its characters. */
  predicate InSet(cset: seq<byte>, c: byte)
    requires IsCString(cset)
  {
    c in cset
  }

  /** memmove to the front of the string, then terminator and length. */
  method KeepWindow(s: Sds, from: nat, len: nat)
    requires s.Valid() && from + len <= s.Len()
    modifies s, s.buf
    ensures s.Valid() && s.buf == old(s.buf) && s.Type() == old(s.Type())
    ensures s.Contents() == old(s.Contents())[from..from + len]
  {
    var window := s.buf[from..from + len];
    assert window == s.Contents()[from..from + len];
    s.Write(0, window);
    s.buf[len] := NUL;
    s.SetLen(len);
    assert s.Contents() == window;
  }

  /** sdstrim keeps the bytes from lo up to hi: everything outside belongs to the set, and
      what is kept neither starts nor ends in it. */
  method Trim(s: Sds, cset: seq<byte>) returns (ghost lo: nat, ghost hi: nat)
    requires s.Valid() && IsCString(cset)
    modifies s, s.buf
    ensures s.Valid() && s.buf == old(s.buf)
    ensures lo <= hi <= old(s.Len()) && s.Contents() == old(s.Contents())[lo..hi]
    ensures forall i :: 0 <= i < lo || hi <= i < old(s.Len()) ==> old(s.Contents())[i] in cset
    ensures lo < hi ==> s.Contents()[0] !in cset && s.Contents()[hi - lo - 1] !in cset
  {
    ghost var before := s.Contents();
    var end := s.Len() - 1;
    var sp, ep := 0, end;
    while sp <= end && InSet(cset, s.buf[sp])
      invariant 0 <= sp <= end + 1
      invariant forall i :: 0 <= i < sp ==> InSet(cset, before[i])
    {
      assert s.buf[sp] == before[sp];
      sp := sp + 1;
    }
    while ep > sp && InSet(cset, s.buf[ep])
      invariant sp - 1 <= ep <= end && (sp <= end ==> sp <= ep)
      invariant forall i :: ep < i <= end ==> InSet(cset, before[i])
    {
      assert s.buf[ep] == before[ep];
      ep := ep - 1;
    }
    assert sp <= end ==> s.buf[sp] == before[sp] && s.buf[ep] == before[ep];
    lo, hi := sp, ep + 1;
    KeepWindow(s, sp, ep - sp + 1);
  }

  /** The window Trim keeps is determined: two windows with its properties hold the same
      bytes. */
  lemma TrimIsDetermined(s: seq<byte>, cset: seq<byte>, lo: nat, hi: nat, lo': nat, hi': nat)
    requires IsCString(cset) && lo <= hi <= |s| && lo' <= hi' <= |s|
    requires forall i :: 0 <= i < lo || hi <= i < |s| ==> s[i] in cset
    requires forall i :: 0 <= i < lo' || hi' <= i < |s| ==> s[i] in cset
    requires lo < hi ==> s[lo] !in cset && s[hi - 1] !in cset
    requires lo' < hi' ==> s[lo'] !in cset && s[hi' - 1] !in cset
    ensures s[lo..hi] == s[lo'..hi']
  {
    if lo < hi && lo' < hi' {
      assert !(lo < lo') && !(lo' < lo) && !(hi < hi') && !(hi' < hi);
    }
  }

  /** An index from the end counts back from the length, but not beyond the first byte. */
  function FromStart(len: nat, index: int): nat {
    if index >= 0 then index
    else if len + index < 0 then 0 else len + index
  }

  /** The bytes whose positions lie between two inclusive bounds. */
  function Between(s: seq<byte>, first: nat, last: nat): seq<byte> {
    if first > last || first >= |s| then []
    else if last >= |s| then s[first..]
    else s[first..last + 1]
  }

  /** sdsrange */
  method Range(s: Sds, start0: int, end0: int)
    requires s.Valid()
    modifies s, s.buf
    ensures s.Valid() && s.buf == old(s.buf)
    ensures s.Contents() ==
      Between(old(s.Contents()), FromStart(old(s.Len()), start0), FromStart(old(s.Len()), end0))
  {
    var len := s.Len();
    ghost var before := s.Contents();
    if len == 0 {
      return;
    }
    var start, end := start0, end0;
    if start < 0 {
      start := len + start;
      if start < 0 {
        start := 0;
      }
    }
    if end < 0 {
      end := len + end;
      if end < 0 {
        end := 0;
      }
    }
    ghost var first, last := start, end;
    var newlen := if start > end then 0 else end - start + 1;
    if newlen != 0 {
      if start >= len {
        newlen := 0;
      } else if end >= len {
        end := len - 1;
        newlen := end - start + 1;
      }
    }
    if newlen == 0 {
      start := 0;
    }
    assert Between(before, first, last) == before[start..start + newlen];
    KeepWindow(s, start, newlen);
  }

  /** Position i of a string of this length lies between the two inclusive bounds, each
      counted from the start if it is not negative and else from the end. */
  predicate Within(len: nat, i: int, start: int, end: int) {
    && (if start >= 0 then start <= i else len + start <= i)
    && (if end >= 0 then i <= end else i <= len + end)
  }

  /** Which bytes sdsrange keeps, for every combination of bounds: those within them, and the
      first byte also if the end bound lies before the string and the start bound does not
      come after that byte. */
  lemma RangeKeeps(s: seq<byte>, start: int, end: int) returns (lo: nat, hi: nat)
    requires s != []
    ensures lo <= hi <= |s|
    ensures Between(s, FromStart(|s|, start), FromStart(|s|, end)) == s[lo..hi]
    ensures forall i :: 0 <= i < |s| ==>
      (lo <= i < hi <==> Within(|s|, i, start, end) || (i == 0 && end < -|s| && (start == 0 || start <= -|s|)))
  {
    var first, last := FromStart(|s|, start), FromStart(|s|, end);
    if first > last || first >= |s| {
      lo, hi := 0, 0;
    } else {
      lo, hi := first, if last >= |s| then |s| else last + 1;
    }
  }

  /** What an end bound before the string does: the empty string would be left, but the first
      byte is, exactly if the start bound includes it. */
  lemma RangeEndBeforeString(s: seq<byte>, start: int, end: int)
    requires s != [] && end < -|s|
    ensures forall i :: 0 <= i < |s| ==> !Within(|s|, i, start, end)
    ensures Between(s, FromStart(|s|, start), FromStart(|s|, end)) ==
      if start == 0 || start <= -|s| then [s[0]] else []
  {
  }

  /** When sdsrange leaves a string as it is. */
  lemma RangeKeepsAllIff(s: seq<byte>, start: int, end: int)
    requires s != []
    ensures Between(s, FromStart(|s|, start), FromStart(|s|, end)) == s
      <==> (start == 0 || start <= -|s|) && (end == -1 || end >= |s| - 1 || (|s| == 1 && end < 0))
  {
    var kept := Between(s, FromStart(|s|, start), FromStart(|s|, end));
    var lo, hi := RangeKeeps(s, start, end);
    assert kept == s ==> hi - lo == |s|;
    assert s[0..|s|] == s;
    assert lo <= 0 < hi && lo <= |s| - 1 < hi ==> kept == s;
  }
}
