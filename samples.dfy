/** Worked examples of the loader on small files. */
module Samples {
  import opened Wrappers
  import opened CText
  import opened Numbers
  import opened Records

  /** The fields of "12345,<name>\n" for a name of letters. */
  lemma NameFields(name: string)
    requires name != [] && forall i :: 0 <= i < |name| ==> IsLower(name[i])
    ensures Fields("12345," + name + "\n") == Some(("12345", name))
  {
    var buf := "12345," + name + "\n";
    var e := 6 + |name|;
    assert forall i :: 0 <= i < 5 ==> !IsDelimiter(buf[i]);
    assert IsDelimiter(buf[5]);
    assert Strtok(buf, 0) == Some(Span(0, 5));
    assert forall i :: 6 <= i < e ==> buf[i] == name[i - 6];
    assert IsDelimiter(buf[e]);
    assert Strtok(buf, 6) == Some(Span(6, e));
    assert buf[0..5] == "12345";
    assert buf[6..e] == name;
  }

  lemma NameLineHasNoNul(name: string)
    requires forall i :: 0 <= i < |name| ==> IsLower(name[i])
    ensures '\0' !in "12345," + name + "\n"
  {
    var line := "12345," + name + "\n";
    forall i | 0 <= i < |line| ensures line[i] != '\0' {
      if 6 <= i < 6 + |name| { assert line[i] == name[i - 6]; }
    }
  }

  lemma SampleId()
    ensures ParseId("12345") == 12345
  {
    var s := "12345";
    assert s[..0] == [] && s[0..5] == s;
    assert s[..4] == "1234" && s[..4][..3] == "123" && s[..3][..2] == "12";
    assert DigitsValue("12") == 12;
    assert DigitsValue("123") == 123;
    assert DigitsValue("1234") == 1234;
    ParseIdOfNumber(s, 0, 0, 5);
  }

  /** "12345,<name>\n" gives the entry 12345 -> the name in upper case. */
  lemma NameRecord(name: string)
    requires name != [] && forall i :: 0 <= i < |name| ==> IsLower(name[i])
    ensures ParseRecord("12345," + name + "\n") == Some(Entry(12345, Upper(name)))
  {
    NameLineHasNoNul(name);
    CStrWhole("12345," + name + "\n");
    NameFields(name);
    SampleId();
    RecordOfTokens("12345," + name + "\n");
  }

  /** A read of one token only, such as an id without a callsign, yields
      nothing. */
  lemma SingleTokenRecord(word: string)
    requires word != [] && word[0] != '#' && NoDelimiter(word) && '\0' !in word
    ensures ParseRecord(word + "\n") == None
  {
    var line := word + "\n";
    assert line == word + ['\n'] + [];
    TokensSplit(word, '\n', []);
    TokensOfWord(word);
    assert '\0' !in line;
    CStrWhole(line);
    RecordOfTokens(line);
  }

  /** atoi ignores what follows the digits of an id field. */
  lemma TrailingTextId()
    ensures ParseId("12ab") == 12
  {
    var s := "12ab";
    assert s[..0] == [] && s[0..2] == "12";
    assert DigitsValue("12") == 12;
    ParseIdOfNumber(s, 0, 0, 2);
  }

  /** A negative id field wraps around to a large unsigned id. */
  lemma NegativeId()
    ensures ParseId(" -5") == 4294967291
  {
    var s := " -5";
    assert s[..1] == " " && s[2..3] == "5";
    assert DigitsValue("5") == 5;
    ParseIdOfNumber(s, 1, 2, 3);
  }

  /** An id field that does not start with a number gives id 0, so its read
      is dropped. */
  lemma TextId()
    ensures ParseId("abc123") == 0
  {
    var s := "abc123";
    assert s[..0] == [] && s[0..0] == [];
    StrtolOfNumber(s, 0, 0, 0);
  }

  /** A line made only of delimiters, a blank line among them, has no
      token at all. */
  lemma BlankRecord(blank: string)
    requires forall i :: 0 <= i < |blank| ==> IsDelimiter(blank[i])
    ensures ParseRecord(blank) == None
  {
    if |blank| > 0 && blank[0] == '#' {
    } else {
      assert CStr(blank) <= blank;
      assert Strtok(CStr(blank), 0).None?;
    }
  }

  /** A comment line, a blank line and "12345,alice" give exactly the entry
      12345 -> "ALICE"; here for any comment, any line of delimiters and any
      lower-case name. */
  lemma CommentBlankRecord(comment: string, blank: string, name: string)
    requires |comment| > 0 && comment[0] == '#'
    requires forall i :: 0 <= i < |blank| ==> IsDelimiter(blank[i])
    requires name != [] && forall i :: 0 <= i < |name| ==> IsLower(name[i])
    ensures Build([comment, blank, "12345," + name + "\n"]) == map[12345 := Upper(name)]
  {
    var record := "12345," + name + "\n";
    NameRecord(name);
    BlankRecord(blank);
    assert Parsed([]) == [];
    BuildSnoc([], comment);
    assert [] + [comment] == [comment];
    StepRejected(map[], comment);
    BuildSnoc([comment], blank);
    assert [comment] + [blank] == [comment, blank];
    StepRejected(map[], blank);
    BuildSnoc([comment, blank], record);
    assert [comment, blank] + [record] == [comment, blank, record];
  }

  /** A file of one record gives the table of that record alone. */
  lemma BuildOne(line: string)
    requires ParseRecord(line).Some?
    ensures Build([line]) == map[ParseRecord(line).value.id := ParseRecord(line).value.callsign]
  {
    assert Parsed([]) == [];
    BuildSnoc([], line);
    assert [] + [line] == [line];
  }

  /** Two records for the same id leave only the second. */
  lemma SameIdTwice(one: string, two: string)
    requires ParseRecord(one).Some? && ParseRecord(two).Some?
    requires ParseRecord(one).value.id == ParseRecord(two).value.id
    ensures Build([one, two]) == map[ParseRecord(two).value.id := ParseRecord(two).value.callsign]
  {
    ParsedTwo(one, two);
    FoldTwo(ParseRecord(one).value, ParseRecord(two).value);
  }

  lemma ParsedTwo(one: string, two: string)
    ensures Parsed([one, two]) == [ParseRecord(one), ParseRecord(two)]
  {
  }

  lemma FoldTwo(e1: Entry, e2: Entry)
    requires e1.id == e2.id
    ensures Fold([Some(e1), Some(e2)]) == map[e2.id := e2.callsign]
  {
    FoldSnoc([], Some(e1));
    assert [] + [Some(e1)] == [Some(e1)];
    FoldSnoc([Some(e1)], Some(e2));
    assert [Some(e1)] + [Some(e2)] == [Some(e1), Some(e2)];
    assert Fold([Some(e1), Some(e2)]).Keys == {e2.id};
  }

  /** A later record for the same id replaces the earlier callsign. */
  lemma DuplicateId(first: string, second: string)
    requires first != [] && forall i :: 0 <= i < |first| ==> IsLower(first[i])
    requires second != [] && forall i :: 0 <= i < |second| ==> IsLower(second[i])
    ensures Build(["12345," + first + "\n", "12345," + second + "\n"]) == map[12345 := Upper(second)]
  {
    NameRecord(first);
    NameRecord(second);
    SameIdTwice("12345," + first + "\n", "12345," + second + "\n");
  }
}
