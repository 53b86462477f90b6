/** CNXDNLookup: the id-to-callsign table of the NXDN gateway, rebuilt from
    the lookup file by Load and queried by Find and Exists. The mutex is
    left out, which makes every operation one sequential step. */
module Lookup {
  import opened Wrappers
  import opened CText
  import opened Numbers
  import opened Records

  /** The all-call id, which find answers without looking at the table. */
  const BROADCAST: u32 := 0xFFFF

  class NXDNLookup {
    /** Hours between background reloads; 0 means no reload thread. */
    const reloadTime: nat
    var table: Table

    ghost predicate Valid()
      reads this
    {
      TableInvariant(table)
    }

    constructor (reloadTime: nat)
      ensures this.reloadTime == reloadTime
      ensures table == map[] && Valid()
    {
      this.reloadTime := reloadTime;
      table := map[];
    }

    /** Reads the lookup file. `source` is its contents, or None when it
        cannot be opened; that leaves the table alone and reports failure.
        Otherwise the table is cleared and refilled from the file's reads,
        and the result says whether anything was loaded. */
    method Load(source: Option<string>) returns (ok: bool)
      requires Valid()
      modifies this
      ensures Valid()
      ensures source.None? ==> !ok && table == old(table)
      ensures source.Some? ==> table == Build(Chunks(source.value))
      ensures source.Some? ==> (ok <==> table != map[])
    {
      if source.None? {
        return false;
      }
      var contents := source.value;
      table := map[];
      var rest := contents;
      ghost var done: seq<string> := [];
      while rest != []
        invariant done + Chunks(rest) == Chunks(contents)
        invariant table == Build(done)
        decreases |rest|
      {
        var n := ReadLen(rest, BUFFER_SIZE - 1);
        var buffer := rest[..n];
        ChunksFirst(rest);
        rest := rest[n..];
        StoreRead(buffer);
        BuildSnoc(done, buffer);
        assert done + ([buffer] + Chunks(rest)) == (done + [buffer]) + Chunks(rest);
        done := done + [buffer];
      }
      assert done == Chunks(contents);
      BuildInvariant(done);
      ok := table != map[];
    }

    /** The body of the read loop for one buffer: skip a comment, split off
        two tokens, parse the id, upper-case the callsign in place and store
        it, replacing any earlier callsign for that id. */
    method StoreRead(buffer: string)
      requires buffer != []
      modifies this
      ensures table == Step(old(table), buffer)
    {
      if buffer[0] == '#' {
        return;
      }
      var line := CStr(buffer);
      var p1 := Strtok(line, 0);
      if p1.None? {
        assert Fields(line).None?;
        return;
      }
      var p2 := Strtok(line, Resume(line, p1.value));
      if p2.None? {
        assert Fields(line).None?;
        return;
      }
      var first := line[p1.value.start..p1.value.end];
      var second := line[p2.value.start..p2.value.end];
      assert Fields(line) == Some((first, second));
      var id := ParseId(first);
      if id > 0 {
        var p := new char[|second|](i requires 0 <= i < |second| => second[i]);
        assert p[..] == second;
        UpperInPlace(p);
        assert ParseRecord(buffer) == Some(Entry(id, Upper(second)));
        table := table[id := p[..]];
      } else {
        assert ParseRecord(buffer).None?;
      }
    }

    /** The first load; starting the reload thread when reloadTime > 0 is
        not part of this model, so the result is that of Load. */
    method Read(source: Option<string>) returns (ok: bool)
      requires Valid()
      modifies this
      ensures Valid()
      ensures source.None? ==> !ok && table == old(table)
      ensures source.Some? ==> table == Build(Chunks(source.value))
      ensures source.Some? ==> (ok <==> table != map[])
    {
      ok := Load(source);
    }

    /** The displayable name of an id: "ALL" for the all-call id, the stored
        callsign on a hit, and otherwise the id in decimal, which reads back
        as the same id. Never empty while the table invariant holds. The
        miss is formatted into an 11-byte buffer, one byte more than the
        source's, which has room for every id (see FindTextFits). */
    method Find(id: u32) returns (callsign: string)
      ensures id == BROADCAST ==> callsign == "ALL"
      ensures id != BROADCAST && id in table ==> callsign == table[id]
      ensures id != BROADCAST && id !in table ==>
                AllDigits(callsign) && DigitsValue(callsign) == id && (|callsign| > 1 ==> callsign[0] != '0')
      ensures id != BROADCAST && id !in table ==> ParseId(callsign) == id
      ensures Valid() ==> callsign != []
    {
      if id == BROADCAST {
        return "ALL";
      }
      if id in table {
        callsign := table[id];
      } else {
        FindTextFits(id);
        callsign := FormatInto(FIND_TEXT_SIZE + 1, id).value;
        ParseIdOfDecimal(id);
      }
    }

    /** Whether the table holds the id; no special case for the all-call id. */
    method Exists(id: u32) returns (found: bool)
      ensures found <==> id in table
    {
      found := id in table;
    }
  }

  /** Loading the same file twice gives the same table and the same result,
      whatever the table held before. */
  method ReloadUnchangedSource(lookup: NXDNLookup, contents: string) returns (first: bool, second: bool)
    requires lookup.Valid()
    modifies lookup
    ensures first == second
    ensures lookup.table == Build(Chunks(contents))
  {
    first := lookup.Load(Some(contents));
    var generation := lookup.table;
    second := lookup.Load(Some(contents));
    assert lookup.table == generation;
  }
}
