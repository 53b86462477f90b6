/** The C library's character and string functions that the loader relies on:
    toupper in the C locale, the NUL-terminated view of a read buffer, and
    strtok with the delimiter set ",\t\r\n". Characters stand for the bytes
    of the lookup file. */
module CText {
  import opened Wrappers

  /** A member of the delimiter set the loader hands to strtok. */
  predicate IsDelimiter(c: char)
  {
    c == ',' || c == '\t' || c == '\r' || c == '\n'
  }

  predicate IsLower(c: char)
  {
    'a' <= c <= 'z'
  }

  /** toupper in the C locale: only 'a'..'z' change, each to its capital. */
  function ToUpper(c: char): (u: char)
    ensures !IsLower(u)
    ensures IsLower(c) ==> u as int == c as int - 32
    ensures !IsLower(c) ==> u == c
  {
    if IsLower(c) then (c as int - 'a' as int + 'A' as int) as char else c
  }

  /** The string the loader's character loop leaves behind in the buffer. */
  function Upper(s: string): (r: string)
    ensures |r| == |s|
    ensures forall i :: 0 <= i < |r| ==> !IsLower(r[i])
    ensures forall i :: 0 <= i < |r| ==> IsLower(s[i]) || r[i] == s[i]
    ensures forall i :: 0 <= i < |r| ==> IsLower(s[i]) ==> r[i] as int == s[i] as int - 32
  {
    seq(|s|, i requires 0 <= i < |s| => ToUpper(s[i]))
  }

  /** The toupper loop over a buffer, done in place. */
  method UpperInPlace(buf: array<char>)
    modifies buf
    ensures buf[..] == Upper(old(buf[..]))
  {
    var i := 0;
    while i < buf.Length
      invariant 0 <= i <= buf.Length
      invariant forall j :: 0 <= j < i ==> buf[j] == ToUpper(old(buf[j]))
      invariant forall j :: i <= j < buf.Length ==> buf[j] == old(buf[j])
    {
      buf[i] := ToUpper(buf[i]);
      i := i + 1;
    }
  }

  /** What a C function sees of a buffer: everything before the first NUL. */
  function CStr(s: string): (r: string)
    ensures r <= s
    ensures '\0' !in r
    ensures |r| < |s| ==> s[|r|] == '\0'
  {
    if s == [] || s[0] == '\0' then [] else [s[0]] + CStr(s[1..])
  }

  /** A buffer without NUL is its own C string. */
  lemma CStrWhole(s: string)
    requires '\0' !in s
    ensures CStr(s) == s
  {
    if |CStr(s)| < |s| { assert s[|CStr(s)|] == '\0'; }
  }

  /** A token found by strtok: it occupies s[start..end]. */
  datatype Span = Span(start: nat, end: nat)

  /** The end of the run of non-delimiters that starts at i. */
  function TokenEnd(s: string, i: nat): (e: nat)
    requires i <= |s|
    ensures i <= e <= |s|
    ensures forall j :: i <= j < e ==> !IsDelimiter(s[j])
    ensures e == |s| || IsDelimiter(s[e])
    decreases |s| - i
  {
    if i == |s| || IsDelimiter(s[i]) then i else TokenEnd(s, i + 1)
  }

  /** The run of non-delimiters from i has one end only. */
  lemma TokenEndIs(s: string, i: nat, e: nat)
    requires i <= e <= |s|
    requires forall j :: i <= j < e ==> !IsDelimiter(s[j])
    requires e == |s| || IsDelimiter(s[e])
    ensures TokenEnd(s, i) == e
  {
  }

  predicate NoDelimiter(w: string)
  {
    forall i :: 0 <= i < |w| ==> !IsDelimiter(w[i])
  }

  /** The tokens of s, in order: its maximal runs of non-delimiters. */
  function Tokens(s: string): (ts: seq<string>)
    ensures forall k :: 0 <= k < |ts| ==> ts[k] != [] && NoDelimiter(ts[k])
    decreases |s|
  {
    if s == [] then []
    else if IsDelimiter(s[0]) then Tokens(s[1..])
    else
      var e := TokenEnd(s, 0);
      [s[..e]] + Tokens(s[e..])
  }

  /** A word without delimiters is a single token. */
  lemma TokensOfWord(w: string)
    requires w != [] && NoDelimiter(w)
    ensures Tokens(w) == [w]
  {
    TokenEndIs(w, 0, |w|);
    assert w[..|w|] == w;
    assert w[|w|..] == [];
  }

  /** A delimiter separates tokens: the tokens on either side of it are the
      tokens of the whole, in order. */
  lemma {:induction false} TokensSplit(a: string, d: char, b: string)
    requires IsDelimiter(d)
    ensures Tokens(a + [d] + b) == Tokens(a) + Tokens(b)
    decreases |a|
  {
    var s := a + [d] + b;
    if a == [] {
      assert s[1..] == b;
    } else if IsDelimiter(a[0]) {
      assert s[1..] == a[1..] + [d] + b;
      TokensSplit(a[1..], d, b);
    } else {
      var e := TokenEnd(a, 0);
      assert forall j :: 0 <= j < e ==> s[j] == a[j];
      assert s[e] == if e < |a| then a[e] else d;
      TokenEndIs(s, 0, e);
      assert s[..e] == a[..e];
      assert s[e..] == a[e..] + [d] + b;
      TokensSplit(a[e..], d, b);
    }
  }

  /** strtok continuing from position `from`: leading delimiters are skipped,
      and the token is the longest run of non-delimiters after them, so a
      token is never empty. None is strtok's null pointer. */
  function Strtok(s: string, from: nat): (r: Option<Span>)
    requires from <= |s|
    ensures r.None? <==> forall i :: from <= i < |s| ==> IsDelimiter(s[i])
    ensures r.Some? ==> from <= r.value.start < r.value.end <= |s|
    ensures r.Some? ==> forall i :: from <= i < r.value.start ==> IsDelimiter(s[i])
    ensures r.Some? ==> forall i :: r.value.start <= i < r.value.end ==> !IsDelimiter(s[i])
    ensures r.Some? ==> r.value.end == |s| || IsDelimiter(s[r.value.end])
    decreases |s| - from
  {
    if from == |s| then None
    else if IsDelimiter(s[from]) then Strtok(s, from + 1)
    else Some(Span(from, TokenEnd(s, from)))
  }

  /** Where the next strtok(nullptr, ...) call resumes: strtok overwrites the
      delimiter that ended the token and saves the position after it, or
      stays at the terminating NUL when the token ran to the end. */
  function Resume(s: string, t: Span): (p: nat)
    requires t.end <= |s|
    ensures t.end <= p <= |s|
    ensures t.end < |s| ==> p == t.end + 1
    ensures t.end == |s| ==> p == |s|
  {
    if t.end < |s| then t.end + 1 else |s|
  }

  /** strtok walks the tokens of s in order: from any position it finds
      the first token of what is left, and resumes where the remaining
      tokens are exactly the others. */
  lemma {:induction false} StrtokTokens(s: string, from: nat)
    requires from <= |s|
    ensures Strtok(s, from).None? <==> Tokens(s[from..]) == []
    ensures Strtok(s, from).Some? ==>
              Tokens(s[from..]) == [s[Strtok(s, from).value.start..Strtok(s, from).value.end]]
                                   + Tokens(s[Resume(s, Strtok(s, from).value)..])
    decreases |s| - from
  {
    if from == |s| {
    } else if IsDelimiter(s[from]) {
      assert s[from..][1..] == s[from + 1..];
      StrtokTokens(s, from + 1);
    } else {
      var e := TokenEnd(s, from);
      var u := s[from..];
      TokenEndIs(u, 0, e - from);
      assert u[..e - from] == s[from..e];
      assert u[e - from..] == s[e..];
      if e < |s| {
        assert s[e..][1..] == s[e + 1..];
      }
    }
  }
}
