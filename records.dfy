/** The lookup file as the loader sees it: the successive fgets reads into a
    100-byte buffer, the record each read yields, and the table a whole file
    yields. */
module Records {
  import opened Wrappers
  import opened CText
  import opened Numbers

  /** The size of the loader's read buffer; fgets stores at most one less
      character than this, plus the terminating NUL. */
  const BUFFER_SIZE: nat := 100

  type Table = map<u32, string>

  /** One accepted record. */
  datatype Entry = Entry(id: u32, callsign: string)

  /** The number of characters one fgets call with room for `limit`
      characters takes from the unread text s: up to and including the first
      newline, but never more than `limit`. */
  function ReadLen(s: string, limit: nat): (n: nat)
    ensures n <= |s| && n <= limit
    ensures s != [] && limit > 0 ==> n > 0
    ensures forall i :: 0 <= i < n - 1 ==> s[i] != '\n'
    ensures n < |s| && n < limit ==> n > 0 && s[n - 1] == '\n'
    decreases limit
  {
    if s == [] || limit == 0 then 0
    else if s[0] == '\n' then 1
    else 1 + ReadLen(s[1..], limit - 1)
  }

  /** The successive buffers the loader's fgets loop reads from a file with
      contents s. Each read is non-empty; fgets returns null only at the end. */
  function Chunks(s: string): (cs: seq<string>)
    ensures forall i :: 0 <= i < |cs| ==> 0 < |cs[i]| < BUFFER_SIZE
    decreases |s|
  {
    if s == [] then []
    else
      var n := ReadLen(s, BUFFER_SIZE - 1);
      [s[..n]] + Chunks(s[n..])
  }

  /** The first read of a non-empty rest, and what follows it. */
  lemma ChunksFirst(s: string)
    requires s != []
    ensures Chunks(s) == [s[..ReadLen(s, BUFFER_SIZE - 1)]] + Chunks(s[ReadLen(s, BUFFER_SIZE - 1)..])
  {
  }

  function Flatten(cs: seq<string>): string
  {
    if cs == [] then [] else cs[0] + Flatten(cs[1..])
  }

  /** The reads cover the file exactly, in order, with nothing lost. */
  lemma {:induction false} ChunksCover(s: string)
    ensures Flatten(Chunks(s)) == s
    decreases |s|
  {
    if s != [] {
      var n := ReadLen(s, BUFFER_SIZE - 1);
      ChunksCover(s[n..]);
      assert Chunks(s)[1..] == Chunks(s[n..]);
      assert s == s[..n] + s[n..];
    }
  }

  /** A read stops early only after a newline, so a newline can end a read
      but never occurs inside one; a line of 100 or more characters is
      therefore split over several reads. */
  lemma {:induction false} ChunksEndAtNewline(s: string, k: nat)
    requires k < |Chunks(s)|
    ensures forall i :: 0 <= i < |Chunks(s)[k]| - 1 ==> Chunks(s)[k][i] != '\n'
    decreases |s|
  {
    var n := ReadLen(s, BUFFER_SIZE - 1);
    if k > 0 {
      ChunksEndAtNewline(s[n..], k - 1);
    }
  }

  /** A line of the file that one fgets call reads whole: at most 99
      characters, with a newline at most at its end. */
  predicate ShortLine(l: string)
  {
    0 < |l| < BUFFER_SIZE && forall j :: 0 <= j < |l| - 1 ==> l[j] != '\n'
  }

  lemma {:induction false} ReadLenOfLine(l: string, rest: string, limit: nat)
    requires 0 < |l| <= limit
    requires forall j :: 0 <= j < |l| - 1 ==> l[j] != '\n'
    requires l[|l| - 1] == '\n' || rest == []
    ensures ReadLen(l + rest, limit) == |l|
    decreases |l|
  {
    if |l| > 1 {
      assert l[0] != '\n';
      assert (l + rest)[1..] == l[1..] + rest;
      ReadLenOfLine(l[1..], rest, limit - 1);
    }
  }

  /** When every line is short and every line but the last ends in a
      newline, the reads are exactly the lines of the file. */
  lemma {:induction false} ChunksOfShortLines(ls: seq<string>)
    requires forall i :: 0 <= i < |ls| ==> ShortLine(ls[i])
    requires forall i :: 0 <= i < |ls| - 1 ==> |ls[i]| > 0 && ls[i][|ls[i]| - 1] == '\n'
    ensures Chunks(Flatten(ls)) == ls
    decreases |ls|
  {
    if ls != [] {
      var rest := Flatten(ls[1..]);
      assert |ls| == 1 ==> rest == [];
      ReadLenOfLine(ls[0], rest, BUFFER_SIZE - 1);
      assert (ls[0] + rest)[..|ls[0]|] == ls[0];
      assert (ls[0] + rest)[|ls[0]|..] == rest;
      ChunksOfShortLines(ls[1..]);
    }
  }

  /** A value the table can hold: non-empty, upper case, and free of the
      delimiters and of NUL. */
  predicate ValidCallsign(s: string)
  {
    |s| > 0 &&
    forall i :: 0 <= i < |s| ==> !IsLower(s[i]) && !IsDelimiter(s[i]) && s[i] != '\0'
  }

  /** What every table the loader builds satisfies. */
  predicate TableInvariant(t: Table)
  {
    forall id :: id in t ==> id > 0 && ValidCallsign(t[id])
  }

  /** The first two tokens strtok finds in a buffer, or None when it has
      fewer than two. */
  function Fields(buf: string): (r: Option<(string, string)>)
    ensures r == if |Tokens(buf)| >= 2 then Some((Tokens(buf)[0], Tokens(buf)[1])) else None
    ensures r.Some? && '\0' !in buf ==> '\0' !in r.value.1
  {
    StrtokTokens(buf, 0);
    assert buf[0..] == buf;
    match Strtok(buf, 0)
    case None => None
    case Some(p1) =>
      StrtokTokens(buf, Resume(buf, p1));
      match Strtok(buf, Resume(buf, p1))
      case None => None
      case Some(p2) => Some((buf[p1.start..p1.end], buf[p2.start..p2.end]))
  }

  /** The record one read yields, if any. A read starting with '#' is a
      comment. Otherwise the fields are taken from the buffer's C string; a
      read with fewer than two fields, or whose first field gives id 0,
      yields nothing. The callsign is the second field in upper case. */
  function ParseRecord(line: string): (r: Option<Entry>)
    ensures |line| > 0 && line[0] == '#' ==> r.None?
    ensures r.Some? ==> r.value.id > 0 && ValidCallsign(r.value.callsign)
  {
    if |line| > 0 && line[0] == '#' then None
    else
      match Fields(CStr(line))
      case None => None
      case Some((first, second)) =>
        var id := ParseId(first);
        if id == 0 then None else Some(Entry(id, Upper(second)))
  }

  /** Which reads yield a record, and which: a read that is not a comment,
      whose C string has at least two tokens and whose first token gives a
      non-zero id, yields that id and the second token in upper case; every
      other read yields nothing. */
  lemma RecordOfTokens(line: string)
    ensures ParseRecord(line).Some? <==>
              !(|line| > 0 && line[0] == '#') && |Tokens(CStr(line))| >= 2 && ParseId(Tokens(CStr(line))[0]) > 0
    ensures ParseRecord(line).Some? ==>
              ParseRecord(line).value == Entry(ParseId(Tokens(CStr(line))[0]), Upper(Tokens(CStr(line))[1]))
  {
  }

  /** The table after one more record has been stored; a later record for
      an id replaces the earlier one. */
  function Insert(t: Table, r: Option<Entry>): (u: Table)
    ensures r.None? ==> u == t
    ensures r.Some? ==> u.Keys == t.Keys + {r.value.id} && u[r.value.id] == r.value.callsign
    ensures r.Some? ==> forall id :: id in t && id != r.value.id ==> u[id] == t[id]
  {
    match r
    case None => t
    case Some(e) => t[e.id := e.callsign]
  }

  /** The table after one more read has been processed. */
  function Step(t: Table, line: string): Table
  {
    Insert(t, ParseRecord(line))
  }

  /** The table a sequence of records gives from an empty table: a left fold
      of Insert. */
  function Fold(rs: seq<Option<Entry>>): Table
    decreases |rs|
  {
    if rs == [] then map[] else Insert(Fold(rs[..|rs| - 1]), rs[|rs| - 1])
  }

  /** The record of each read, in order. */
  function Parsed(lines: seq<string>): (rs: seq<Option<Entry>>)
    ensures |rs| == |lines|
    ensures forall i :: 0 <= i < |lines| ==> rs[i] == ParseRecord(lines[i])
  {
    seq(|lines|, i requires 0 <= i < |lines| => ParseRecord(lines[i]))
  }

  /** The table the loader builds from a sequence of reads. */
  function Build(lines: seq<string>): Table
  {
    Fold(Parsed(lines))
  }

  predicate HasId(r: Option<Entry>, id: u32)
  {
    r.Some? && r.value.id == id
  }

  predicate ValidRecord(r: Option<Entry>)
  {
    r.Some? ==> r.value.id > 0 && ValidCallsign(r.value.callsign)
  }

  /** True when `line` yields a record for `id`. */
  predicate Defines(line: string, id: u32)
  {
    HasId(ParseRecord(line), id)
  }

  /** The reads of two parts of a file yield the records of each part. */
  lemma ParsedAppend(a: seq<string>, b: seq<string>)
    ensures Parsed(a + b) == Parsed(a) + Parsed(b)
  {
    var l, r := Parsed(a + b), Parsed(a) + Parsed(b);
    forall i | 0 <= i < |l| ensures l[i] == r[i] {
      if i < |a| {
        assert (a + b)[i] == a[i];
      } else {
        assert (a + b)[i] == b[i - |a|];
      }
    }
  }

  lemma FoldSnoc(rs: seq<Option<Entry>>, r: Option<Entry>)
    ensures Fold(rs + [r]) == Insert(Fold(rs), r)
  {
    assert (rs + [r])[..|rs|] == rs;
  }

  /** Building after one more read is one more Step. */
  lemma BuildSnoc(lines: seq<string>, line: string)
    ensures Build(lines + [line]) == Step(Build(lines), line)
  {
    ParsedAppend(lines, [line]);
    assert Parsed([line]) == [ParseRecord(line)];
    FoldSnoc(Parsed(lines), ParseRecord(line));
  }

  lemma {:induction false} FoldInvariant(rs: seq<Option<Entry>>)
    requires forall i :: 0 <= i < |rs| ==> ValidRecord(rs[i])
    ensures TableInvariant(Fold(rs))
    decreases |rs|
  {
    if rs != [] {
      FoldInvariant(rs[..|rs| - 1]);
    }
  }

  /** Every table the loader builds has ids > 0 and valid callsigns only. */
  lemma BuildInvariant(lines: seq<string>)
    ensures TableInvariant(Build(lines))
  {
    FoldInvariant(Parsed(lines));
  }

  /** A record for an id puts it in the table, and later records never take
      it out again. */
  lemma {:induction false} FoldKeepsDefined(rs: seq<Option<Entry>>, i: nat, id: u32)
    requires i < |rs| && HasId(rs[i], id)
    ensures id in Fold(rs)
    decreases |rs|
  {
    var init := rs[..|rs| - 1];
    if i < |init| {
      assert init[i] == rs[i];
      FoldKeepsDefined(init, i, id);
    }
  }

  lemma {:induction false} FoldKeys(rs: seq<Option<Entry>>, id: u32)
    ensures id in Fold(rs) <==> exists i :: 0 <= i < |rs| && HasId(rs[i], id)
    decreases |rs|
  {
    if rs != [] {
      var init := rs[..|rs| - 1];
      FoldKeys(init, id);
      if id in Fold(rs) && !HasId(rs[|rs| - 1], id) {
        var i :| 0 <= i < |init| && HasId(init[i], id);
        assert rs[i] == init[i];
      }
    }
    if exists i :: 0 <= i < |rs| && HasId(rs[i], id) {
      var i :| 0 <= i < |rs| && HasId(rs[i], id);
      FoldKeepsDefined(rs, i, id);
    }
  }

  lemma {:induction false} FoldLastWins(rs: seq<Option<Entry>>, i: nat, id: u32)
    requires i < |rs| && HasId(rs[i], id)
    requires forall j :: i < j < |rs| ==> !HasId(rs[j], id)
    ensures id in Fold(rs) && Fold(rs)[id] == rs[i].value.callsign
    decreases |rs|
  {
    var init := rs[..|rs| - 1];
    if i < |init| {
      assert init[i] == rs[i];
      forall j | i < j < |init| ensures !HasId(init[j], id) {
        assert init[j] == rs[j];
      }
      FoldLastWins(init, i, id);
    }
  }

  lemma {:induction false} FoldSkipsNone(pre: seq<Option<Entry>>, post: seq<Option<Entry>>)
    ensures Fold(pre + [None] + post) == Fold(pre + post)
    decreases |post|
  {
    if post == [] {
      assert pre + [None] + post == pre + [None];
      assert pre + post == pre;
      FoldSnoc(pre, None);
    } else {
      var front, last := post[..|post| - 1], post[|post| - 1];
      FoldSkipsNone(pre, front);
      assert pre + [None] + post == (pre + [None] + front) + [last];
      assert pre + post == (pre + front) + [last];
      FoldSnoc(pre + [None] + front, last);
      FoldSnoc(pre + front, last);
    }
  }

  /** An id is in the table exactly when some read yields a record for it. */
  lemma BuildKeys(lines: seq<string>, id: u32)
    ensures id in Build(lines) <==> exists i :: 0 <= i < |lines| && Defines(lines[i], id)
  {
    var rs := Parsed(lines);
    FoldKeys(rs, id);
    assert forall i :: 0 <= i < |lines| ==> (Defines(lines[i], id) <==> HasId(rs[i], id));
  }

  /** For an id on several reads, the last of them decides the callsign. */
  lemma BuildLastWins(lines: seq<string>, i: nat, id: u32)
    requires i < |lines| && Defines(lines[i], id)
    requires forall j :: i < j < |lines| ==> !Defines(lines[j], id)
    ensures id in Build(lines)
    ensures Build(lines)[id] == ParseRecord(lines[i]).value.callsign
  {
    var rs := Parsed(lines);
    assert forall j :: i < j < |lines| ==> !HasId(rs[j], id);
    FoldLastWins(rs, i, id);
  }

  /** A read that yields nothing leaves the table as it is. */
  lemma StepRejected(t: Table, line: string)
    requires ParseRecord(line).None?
    ensures Step(t, line) == t
  {
  }

  /** A read that yields nothing (a comment, a read with fewer than two
      tokens, an id of 0) can be removed without changing the table. */
  lemma BuildSkipsRejected(pre: seq<string>, line: string, post: seq<string>)
    requires ParseRecord(line).None?
    ensures Build(pre + [line] + post) == Build(pre + post)
  {
    ParsedAppend(pre + [line], post);
    ParsedAppend(pre, [line]);
    ParsedAppend(pre, post);
    assert Parsed([line]) == [None];
    FoldSkipsNone(Parsed(pre), Parsed(post));
  }
}
