/** The stitch CSV export: one `x,y` line per path vertex, coordinates
    truncated to integers, every line ending in a newline, no header. */
module Csv {
  import opened Results
  import opened Geometry
  import opened Decimal

  /** One line: `f"{int(x)},{int(y)}\n"`. It ends in its only newline, and
      what precedes the newline reads back as the truncated vertex. */
  function CsvLine(v: Vertex): (line: string)
    ensures |line| > 0 && line[|line| - 1] == '\n' && '\n' !in line[..|line| - 1]
    ensures ParseLine(line[..|line| - 1]) == Some(Truncated(v))
  {
    var body := IntText(Trunc(v.x)) + "," + IntText(Trunc(v.y));
    PairHasNoNewline(Trunc(v.x), Trunc(v.y));
    PairRoundTrip(Trunc(v.x), Trunc(v.y));
    assert (body + "\n")[..|body|] == body;
    body + "\n"
  }

  /** The file contents written by `export_csv`. */
  function CsvText(vs: seq<Vertex>): (s: string)
    ensures |vs| == 0 <==> |s| == 0
    ensures |vs| > 0 ==> s[|s| - 1] == '\n'
  {
    if |vs| == 0 then "" else CsvLine(vs[0]) + CsvText(vs[1..])
  }

  /** Position of the first `c` in `s`, if any. */
  function Find(s: string, c: char): (r: Option<nat>)
    ensures r.Some? ==> r.value < |s| && s[r.value] == c && c !in s[..r.value]
    ensures r.None? ==> c !in s
  {
    if |s| == 0 then None
    else if s[0] == c then Some(0)
    else match Find(s[1..], c)
      case None => None
      case Some(k) =>
        assert s[..k + 1] == [s[0]] + s[1..][..k];
        Some(k + 1)
  }

  /** Reads one line without its newline: two integers separated by a comma. */
  function ParseLine(line: string): Option<Point> {
    match Find(line, ',')
    case None => None
    case Some(k) =>
      match (ParseInt(line[..k]), ParseInt(line[k + 1..]))
      case (Some(x), Some(y)) => Some(Point(x, y))
      case _ => None
  }

  /** Reads a CSV text back into its points; `None` if a line is malformed or
      the last line lacks its newline. */
  function ParseCsv(s: string): Option<seq<Point>>
    decreases |s|
  {
    if |s| == 0 then Some([])
    else match Find(s, '\n')
      case None => None
      case Some(k) =>
        match (ParseLine(s[..k]), ParseCsv(s[k + 1..]))
        case (Some(p), Some(ps)) => Some([p] + ps)
        case _ => None
  }

  /** The first `c` is found right after a prefix free of `c`. */
  lemma FindAfter(a: string, c: char, b: string)
    requires c !in a
    ensures Find(a + [c] + b, c) == Some(|a|)
  {
    var s := a + [c] + b;
    assert s[|a|] == c;
    assert s[..|a|] == a;
  }

  lemma NoSeparatorsInNumber(i: int)
    ensures ',' !in IntText(i) && '\n' !in IntText(i)
  {
    var t := IntText(i);
    forall k | 0 <= k < |t| ensures t[k] != ',' && t[k] != '\n' {
    }
  }

  /** The text before the newline holds no newline. */
  lemma PairHasNoNewline(x: int, y: int)
    ensures '\n' !in IntText(x) + "," + IntText(y)
  {
    var a, b := IntText(x), IntText(y);
    NoSeparatorsInNumber(x);
    NoSeparatorsInNumber(y);
    var body := a + "," + b;
    forall k | 0 <= k < |body| ensures body[k] != '\n' {
      if k < |a| {
        assert body[k] == a[k];
      } else if k > |a| {
        assert body[k] == b[k - |a| - 1];
      }
    }
  }

  /** Reading back the two numbers of a line gives them. */
  lemma PairRoundTrip(x: int, y: int)
    ensures ParseLine(IntText(x) + "," + IntText(y)) == Some(Point(x, y))
  {
    var a, b := IntText(x), IntText(y);
    NoSeparatorsInNumber(x);
    var body := a + "," + b;
    FindAfter(a, ',', b);
    assert body == a + [','] + b;
    assert body[..|a|] == a && body[|a| + 1..] == b;
    IntTextRoundTrip(x);
    IntTextRoundTrip(y);
  }

  /** Reading back one written line gives the truncated vertex. */
  lemma LineRoundTrip(v: Vertex)
    ensures var line := CsvLine(v);
      Find(line, '\n') == Some(|line| - 1) &&
      ParseLine(line[..|line| - 1]) == Some(Truncated(v))
  {
    var body := IntText(Trunc(v.x)) + "," + IntText(Trunc(v.y));
    PairHasNoNewline(Trunc(v.x), Trunc(v.y));
    assert CsvLine(v) == body + ['\n'] + "";
    FindAfter(body, '\n', "");
    assert CsvLine(v)[..|CsvLine(v)| - 1] == body;
    PairRoundTrip(Trunc(v.x), Trunc(v.y));
  }

  /** The first line of a non-empty CSV text ends at the first newline, and
      what follows it is the text of the remaining vertices. */
  lemma FirstLine(vs: seq<Vertex>)
    requires |vs| > 0
    ensures var s, line := CsvText(vs), CsvLine(vs[0]);
      Find(s, '\n') == Some(|line| - 1) &&
      s[..|line| - 1] == line[..|line| - 1] &&
      s[|line|..] == CsvText(vs[1..])
  {
    var line := CsvLine(vs[0]);
    var rest := CsvText(vs[1..]);
    LineRoundTrip(vs[0]);
    var k := |line| - 1;
    assert line == line[..k] + ['\n'];
    FindAfter(line[..k], '\n', rest);
    assert CsvText(vs) == line[..k] + ['\n'] + rest;
  }

  /** Parsing a text whose first line and remainder both parse. */
  lemma ParseFirstLine(s: string, k: nat, p: Point, ps: seq<Point>)
    requires |s| > 0 && Find(s, '\n') == Some(k)
    requires ParseLine(s[..k]) == Some(p) && ParseCsv(s[k + 1..]) == Some(ps)
    ensures ParseCsv(s) == Some([p] + ps)
  {
  }

  /** Reading the CSV back gives every vertex, truncated, in order: one line
      per vertex. */
  lemma {:induction false} CsvRoundTrip(vs: seq<Vertex>)
    ensures ParseCsv(CsvText(vs)) == Some(TruncateAll(vs))
    decreases |vs|
  {
    if |vs| > 0 {
      var s, line := CsvText(vs), CsvLine(vs[0]);
      var k := |line| - 1;
      FirstLine(vs);
      LineRoundTrip(vs[0]);
      CsvRoundTrip(vs[1..]);
      ParseFirstLine(s, k, Truncated(vs[0]), TruncateAll(vs[1..]));
      TruncateAllCons(vs);
    }
  }

  /** A line reads as `p` only if it is exactly the text written for `p`. */
  lemma ParseLineExact(line: string, p: Point)
    requires ParseLine(line) == Some(p)
    ensures line == IntText(p.x) + "," + IntText(p.y)
  {
    var k := Find(line, ',').value;
    ParseIntExact(line[..k], p.x);
    ParseIntExact(line[k + 1..], p.y);
    assert line == line[..k] + [line[k]] + line[k + 1..];
  }

  /** A non-empty text that parses splits at its first newline into a line
      that parses and a remainder that parses. */
  lemma SplitParsed(s: string) returns (k: nat, p: Point, ps: seq<Point>)
    requires |s| > 0 && ParseCsv(s).Some?
    ensures k < |s| && s[k] == '\n' && s == s[..k] + "\n" + s[k + 1..]
    ensures ParseLine(s[..k]) == Some(p) && ParseCsv(s[k + 1..]) == Some(ps)
    ensures ParseCsv(s) == Some([p] + ps)
  {
    k := Find(s, '\n').value;
    p := ParseLine(s[..k]).value;
    ps := ParseCsv(s[k + 1..]).value;
    assert s == s[..k] + [s[k]] + s[k + 1..];
  }

  /** The written text is the only text that reads back as the truncated
      vertices: together with `CsvRoundTrip`, this fixes every byte of the
      file `export_csv` writes. */
  lemma {:induction false} CsvTextUnique(vs: seq<Vertex>, s: string)
    requires ParseCsv(s) == Some(TruncateAll(vs))
    ensures s == CsvText(vs)
    decreases |vs|
  {
    if |s| == 0 {
      assert |TruncateAll(vs)| == 0;
    } else {
      var k, p, ps := SplitParsed(s);
      TruncateAllCons(vs);
      assert [p] + ps == [Truncated(vs[0])] + TruncateAll(vs[1..]);
      assert p == Truncated(vs[0]) && ps == TruncateAll(vs[1..]);
      ParseLineExact(s[..k], p);
      CsvTextUnique(vs[1..], s[k + 1..]);
      assert s[..k] + "\n" == CsvLine(vs[0]);
    }
  }

  /** The number of newline characters in `s`. */
  function LineCount(s: string): nat {
    if |s| == 0 then 0 else (if s[0] == '\n' then 1 else 0) + LineCount(s[1..])
  }

  lemma {:induction false} LineCountAppend(a: string, b: string)
    ensures LineCount(a + b) == LineCount(a) + LineCount(b)
    decreases |a|
  {
    if |a| > 0 {
      assert (a + b)[0] == a[0] && (a + b)[1..] == a[1..] + b;
      LineCountAppend(a[1..], b);
    } else {
      assert a + b == b;
    }
  }

  lemma {:induction false} NoNewlineCount(s: string)
    requires '\n' !in s
    ensures LineCount(s) == 0
    decreases |s|
  {
    if |s| > 0 {
      assert s[0] != '\n';
      NoNewlineCount(s[1..]);
    }
  }

  /** The text has exactly one newline per vertex. */
  lemma {:induction false} CsvLineCount(vs: seq<Vertex>)
    ensures LineCount(CsvText(vs)) == |vs|
    decreases |vs|
  {
    if |vs| > 0 {
      var line := CsvLine(vs[0]);
      LineRoundTrip(vs[0]);
      var k := |line| - 1;
      assert line == line[..k] + "\n";
      NoNewlineCount(line[..k]);
      LineCountAppend(line[..k], "\n");
      LineCountAppend(line, CsvText(vs[1..]));
      CsvLineCount(vs[1..]);
    }
  }
}
