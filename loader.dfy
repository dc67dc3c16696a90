/**
 * The dataset loader of the import task: every line of the raw resource is
 * split on tab characters with Java's `String.split` semantics, the first two
 * fields become a student record, and records are collected in input order
 * until the first line that cannot be turned into a record.
 */
module Loader {
  import opened Wrappers

  const TAB: char := '\t'

  /** One student: the display name and the student number (`nim`). */
  datatype Record = Record(name: string, nim: string)

  /** The pieces between tab characters, empty pieces included: a string with t tabs has t + 1 pieces. */
  function Pieces(s: string): (r: seq<string>)
    ensures |r| >= 1
    ensures forall i :: 0 <= i < |r| ==> TAB !in r[i]
    decreases |s|
  {
    if s == [] then [""]
    else if s[0] == TAB then [""] + Pieces(s[1..])
    else
      var rest := Pieces(s[1..]);
      [[s[0]] + rest[0]] + rest[1..]
  }

  /** The fields written back with a tab between consecutive fields. */
  function Join(fs: seq<string>): (s: string)
    requires |fs| >= 1
    decreases |fs|
  {
    if |fs| == 1 then fs[0] else fs[0] + [TAB] + Join(fs[1..])
  }

  /** The longest prefix of `fs` that does not end with an empty string. */
  function DropTrailingEmpty(fs: seq<string>): (r: seq<string>)
    ensures r <= fs
    ensures r == [] || r[|r| - 1] != ""
    ensures forall i :: |r| <= i < |fs| ==> fs[i] == ""
    decreases |fs|
  {
    if fs == [] then []
    else if fs[|fs| - 1] == "" then DropTrailingEmpty(fs[..|fs| - 1])
    else fs
  }

  /**
   * Java's `line.split("\t")`: a line without a tab is its own single field
   * (even the empty line); otherwise the pieces between tabs, with trailing
   * empty pieces removed, so that a line of tabs only has no field at all.
   */
  function Split(s: string): (r: seq<string>)
    ensures forall i :: 0 <= i < |r| ==> TAB !in r[i]
    ensures TAB !in s ==> r == [s]
    ensures TAB in s ==> r <= Pieces(s) && (r == [] || r[|r| - 1] != "")
    ensures TAB in s ==> forall i :: |r| <= i < |Pieces(s)| ==> Pieces(s)[i] == ""
  {
    if TAB !in s then [s] else DropTrailingEmpty(Pieces(s))
  }

  /**
   * One iteration of the reading loop: a null line (end of input) or a line
   * with fewer than two fields raises an exception, shown here as None;
   * otherwise field 0 is the name and field 1 the student number.
   */
  function ParseLine(line: Option<string>): (r: Option<Record>)
    ensures line.None? ==> r.None?
    ensures line.Some? && TAB !in line.value ==> r.None?
    ensures r.Some? ==> TAB !in r.value.name && TAB !in r.value.nim
  {
    match line
    case None => None
    case Some(s) =>
      var fields := Split(s);
      if |fields| < 2 then None else Some(Record(fields[0], fields[1]))
  }

  /** The line at index `i` of the resource, or null once the input is exhausted. */
  function ReadLine(lines: seq<string>, i: nat): (r: Option<string>)
    ensures r.Some? <==> i < |lines|
    ensures i < |lines| ==> r.value == lines[i]
  {
    if i < |lines| then Some(lines[i]) else None
  }

  /** The parse result of every line of the resource, in order. */
  function ParsedLines(lines: seq<string>): (ps: seq<Option<Record>>)
    ensures |ps| == |lines|
    decreases |lines|
  {
    if lines == [] then [] else [ParseLine(Some(lines[0]))] + ParsedLines(lines[1..])
  }

  /**
   * The records collected from parse result `i` on: the record of each line,
   * up to the first line that yields none or the end of the input.
   */
  function RecordsFrom(ps: seq<Option<Record>>, i: nat): (r: seq<Record>)
    requires i <= |ps|
    ensures i + |r| <= |ps|
    decreases |ps| - i
  {
    if i == |ps| || ps[i].None? then [] else [ps[i].value] + RecordsFrom(ps, i + 1)
  }

  /** The records of the lines before the first line that does not parse (all lines if every one parses). */
  function LongestGoodPrefix(lines: seq<string>): (r: seq<Record>)
    ensures |r| <= |lines|
  {
    RecordsFrom(ParsedLines(lines), 0)
  }

  /** The records the loader yields for a resource; None is a resource that cannot be opened. */
  function LoadedRecords(raw: Option<seq<string>>): (r: seq<Record>)
    ensures raw.None? ==> r == []
    ensures raw.Some? ==> |r| <= |raw.value|
  {
    if raw.None? then [] else LongestGoodPrefix(raw.value)
  }

  /**
   * The reading loop. It has no normal exit: it stops only when reading the
   * line past the end, or parsing a malformed line, raises an exception, which
   * is caught, and the records collected so far are returned. Failing to open
   * the resource is caught the same way and yields no record.
   */
  method PreLoadRaw(raw: Option<seq<string>>) returns (models: seq<Record>)
    ensures models == LoadedRecords(raw)
    ensures raw.None? ==> models == []
    ensures raw.Some? ==> |models| <= |raw.value|
    ensures raw.Some? ==> forall i :: 0 <= i < |models| ==> ParseLine(Some(raw.value[i])) == Some(models[i])
    ensures raw.Some? && |models| < |raw.value| ==> ParseLine(Some(raw.value[|models|])).None?
  {
    models := [];
    if raw.None? {
      return;
    }
    var lines := raw.value;
    ghost var ps := ParsedLines(lines);
    var i := 0;
    while true
      invariant i <= |lines|
      invariant RecordsFrom(ps, 0) == models + RecordsFrom(ps, i)
      decreases |lines| - i
    {
      var parsed := ParseLine(ReadLine(lines, i));
      if i < |lines| {
        ParsedLinesAt(lines, i);
      }
      if parsed.None? {
        assert models + [] == models;
        break;
      }
      ghost var rest := RecordsFrom(ps, i + 1);
      assert RecordsFrom(ps, i) == [parsed.value] + rest;
      assert models + ([parsed.value] + rest) == (models + [parsed.value]) + rest;
      models := models + [parsed.value];
      i := i + 1;
    }
    GoodPrefixCharacterised(lines);
  }

  // ---------------------------------------------------------------------------
  // Properties of splitting and parsing

  /** Splitting into pieces loses nothing: joining the pieces gives the line back. */
  lemma {:induction false} JoinPieces(s: string)
    ensures Join(Pieces(s)) == s
    decreases |s|
  {
    if s == [] {
    } else if s[0] == TAB {
      JoinPieces(s[1..]);
      assert Pieces(s) == [""] + Pieces(s[1..]);
    } else {
      var rest := Pieces(s[1..]);
      JoinPieces(s[1..]);
      var r := [[s[0]] + rest[0]] + rest[1..];
      assert Pieces(s) == r;
      if |rest| == 1 {
        assert Join(r) == [s[0]] + rest[0];
      } else {
        assert r[1..] == rest[1..];
        assert Join(rest) == rest[0] + [TAB] + Join(rest[1..]);
        assert Join(r) == ([s[0]] + rest[0]) + [TAB] + Join(rest[1..]);
      }
      assert [s[0]] + s[1..] == s;
    }
  }

  /** A tab-free prefix glues onto the first piece of what follows it. */
  lemma {:induction false} PiecesPrefix(a: string, s: string)
    requires TAB !in a
    ensures Pieces(a + s) == [a + Pieces(s)[0]] + Pieces(s)[1..]
    decreases |a|
  {
    if a == [] {
      var p := Pieces(s);
      assert a + s == s && a + p[0] == p[0];
      assert [p[0]] + p[1..] == p;
    } else {
      PiecesPrefix(a[1..], s);
      assert (a + s)[0] == a[0];
      assert (a + s)[1..] == a[1..] + s;
      assert [a[0]] + (a[1..] + Pieces(s)[0]) == a + Pieces(s)[0];
    }
  }

  /** Joining tab-free fields and splitting into pieces gives the fields back. */
  lemma {:induction false} PiecesJoin(fs: seq<string>)
    requires |fs| >= 1
    requires forall i :: 0 <= i < |fs| ==> TAB !in fs[i]
    ensures Pieces(Join(fs)) == fs
    decreases |fs|
  {
    if |fs| == 1 {
      PiecesPrefix(fs[0], "");
      assert fs[0] + "" == fs[0];
    } else {
      var t := Join(fs[1..]);
      PiecesJoin(fs[1..]);
      PiecesPrefix(fs[0], [TAB] + t);
      assert Pieces([TAB] + t) == [""] + Pieces(t);
      assert fs[0] + [TAB] + t == fs[0] + ([TAB] + t);
      assert fs[0] + "" == fs[0];
      assert [fs[0]] + fs[1..] == fs;
    }
  }

  /**
   * Round trip of Java's split: tab-free fields joined with tabs split back to
   * the same fields, provided the last field is not empty (a trailing empty
   * field would be dropped) or there is just one field.
   */
  lemma SplitJoin(fs: seq<string>)
    requires |fs| >= 1
    requires forall i :: 0 <= i < |fs| ==> TAB !in fs[i]
    requires |fs| == 1 || fs[|fs| - 1] != ""
    ensures Split(Join(fs)) == fs
  {
    if |fs| > 1 {
      var s := Join(fs);
      assert s == fs[0] + [TAB] + Join(fs[1..]);
      assert s[|fs[0]|] == TAB;
      PiecesJoin(fs);
    }
  }

  /**
   * A line made of two or more tab-separated fields yields the record of its
   * first two fields when some field after the first is non-empty, and every
   * field after the second is ignored; when every field after the first is
   * empty (a name followed by tabs only) the line yields no record.
   */
  lemma ParseJoined(fs: seq<string>)
    requires |fs| >= 2
    requires forall i :: 0 <= i < |fs| ==> TAB !in fs[i]
    ensures (exists i :: 1 <= i < |fs| && fs[i] != "") ==> ParseLine(Some(Join(fs))) == Some(Record(fs[0], fs[1]))
    ensures (forall i :: 1 <= i < |fs| ==> fs[i] == "") ==> ParseLine(Some(Join(fs))).None?
  {
    var s := Join(fs);
    assert s == fs[0] + [TAB] + Join(fs[1..]);
    assert s[|fs[0]|] == TAB;
    PiecesJoin(fs);
    var d := Split(s);
    if exists i :: 1 <= i < |fs| && fs[i] != "" {
      var i :| 1 <= i < |fs| && fs[i] != "";
      assert |d| > i;
    } else {
      assert |d| < 2;
    }
  }

  /**
   * Conversely, a line that parses starts with the name, a tab and the student
   * number, and whatever follows the number begins with a tab.
   */
  lemma ParsedLineShape(s: string)
    requires ParseLine(Some(s)).Some?
    ensures var r := ParseLine(Some(s)).value;
      && r.name + [TAB] + r.nim <= s
      && (|s| == |r.name| + 1 + |r.nim| || s[|r.name| + 1 + |r.nim|] == TAB)
  {
    var p := Pieces(s);
    var f := Split(s);
    assert TAB in s;
    assert f <= p && |f| >= 2;
    JoinPieces(s);
    var rest := Join(p[1..]);
    assert s == p[0] + [TAB] + rest;
    if |p| == 2 {
      assert rest == p[1];
    } else {
      assert rest == p[1] + [TAB] + Join(p[2..]);
    }
  }

  // ---------------------------------------------------------------------------
  // Properties of the loaded dataset

  /**
   * What the reading loop leaves behind: record i is the record of line i, and
   * the line right after the last record, if there is one, does not parse.
   */
  lemma GoodPrefixCharacterised(lines: seq<string>)
    ensures var r := LongestGoodPrefix(lines);
      && (forall i :: 0 <= i < |r| ==> ParseLine(Some(lines[i])) == Some(r[i]))
      && (|r| < |lines| ==> ParseLine(Some(lines[|r|])).None?)
  {
    var ps := ParsedLines(lines);
    var r := LongestGoodPrefix(lines);
    RecordsFromCharacterised(ps, 0);
    forall i | 0 <= i < |r|
      ensures ParseLine(Some(lines[i])) == Some(r[i])
    {
      assert ps[0 + i] == Some(r[i]);
      ParsedLinesAt(lines, i);
    }
    if |r| < |lines| {
      assert ps[0 + |r|].None?;
      ParsedLinesAt(lines, |r|);
    }
  }

  /** Line k's parse result is at index k. */
  lemma {:induction false} ParsedLinesAt(lines: seq<string>, k: nat)
    requires k < |lines|
    ensures ParsedLines(lines)[k] == ParseLine(Some(lines[k]))
    decreases k
  {
    if k > 0 {
      ParsedLinesAt(lines[1..], k - 1);
      assert lines[1..][k - 1] == lines[k];
    }
  }

  /**
   * The records collected from `j` on are the parse results from `j` on, up to
   * the first result that is not a record.
   */
  lemma {:induction false} RecordsFromCharacterised(ps: seq<Option<Record>>, j: nat)
    requires j <= |ps|
    ensures var r := RecordsFrom(ps, j);
      && (forall i :: 0 <= i < |r| ==> ps[j + i] == Some(r[i]))
      && (j + |r| < |ps| ==> ps[j + |r|].None?)
    decreases |ps| - j
  {
    if j < |ps| && ps[j].Some? {
      RecordsFromCharacterised(ps, j + 1);
      var r, rt := RecordsFrom(ps, j), RecordsFrom(ps, j + 1);
      assert r == [ps[j].value] + rt;
      forall i | 1 <= i < |r|
        ensures ps[j + i] == Some(r[i])
      {
        assert j + i == (j + 1) + (i - 1) && r[i] == rt[i - 1];
      }
    }
  }

  /**
   * The loaded dataset is characterised by its two properties: every record
   * comes from the line at its position, and the line right after the last
   * record (if any) does not parse. Any sequence with both is the dataset.
   */
  lemma {:induction false} GoodPrefixUnique(lines: seq<string>, rs: seq<Record>)
    requires |rs| <= |lines|
    requires forall i :: 0 <= i < |rs| ==> ParseLine(Some(lines[i])) == Some(rs[i])
    requires |rs| < |lines| ==> ParseLine(Some(lines[|rs|])).None?
    ensures rs == LongestGoodPrefix(lines)
  {
    GoodPrefixCharacterised(lines);
    var good := LongestGoodPrefix(lines);
    assert |rs| == |good|;
    forall i | 0 <= i < |rs|
      ensures rs[i] == good[i]
    {
      assert Some(rs[i]) == ParseLine(Some(lines[i])) == Some(good[i]);
    }
  }

  /** A dataset whose lines all parse loads completely, one record per line, in order. */
  lemma AllLinesParse(lines: seq<string>)
    requires forall i :: 0 <= i < |lines| ==> ParseLine(Some(lines[i])).Some?
    ensures |LongestGoodPrefix(lines)| == |lines|
    ensures forall i :: 0 <= i < |lines| ==> LongestGoodPrefix(lines)[i] == ParseLine(Some(lines[i])).value
  {
    GoodPrefixCharacterised(lines);
  }

  /** A malformed line cuts the dataset: nothing from it or from any later line is loaded. */
  lemma MalformedLineTruncates(lines: seq<string>, k: nat)
    requires k < |lines|
    requires ParseLine(Some(lines[k])).None?
    ensures |LongestGoodPrefix(lines)| <= k
    ensures LongestGoodPrefix(lines) == LongestGoodPrefix(lines[..k])
  {
    GoodPrefixCharacterised(lines);
    var good := LongestGoodPrefix(lines);
    var pre := lines[..k];
    assert forall i :: 0 <= i < |good| ==> pre[i] == lines[i];
    GoodPrefixUnique(pre, good);
  }
}
