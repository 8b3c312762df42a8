/** `src/utils/wordParser.ts`: turning the text of a study list into
    word records. */
module WordParser {
  import opened JsString
  import opened JsArray
  import opened Word

  /** `text.replace(/_/g, ' ')`: every underscore becomes a space. */
  function ReplaceUnderscores(s: string): (r: string)
    ensures |r| == |s| && '_' !in r
    ensures forall k | 0 <= k < |s| && s[k] == '_' :: r[k] == ' '
    ensures forall k | 0 <= k < |s| && s[k] != '_' :: r[k] == s[k]
  {
    seq(|s|, k requires 0 <= k < |s| => if s[k] == '_' then ' ' else s[k])
  }

  /** `normalizeWord`: underscores become spaces, then the result is trimmed. */
  function NormalizeWord(text: string): (r: string)
    ensures '_' !in r
    ensures r == [] || (!IsSpace(r[0]) && !IsSpace(r[|r| - 1]))
  {
    var spaced := ReplaceUnderscores(text);
    TrimKeepsCharacters(spaced);
    Trim(spaced)
  }

  /** Normalising twice is normalising once. */
  lemma NormalizeWordIdempotent(text: string)
    ensures NormalizeWord(NormalizeWord(text)) == NormalizeWord(text)
  {
    var n := NormalizeWord(text);
    assert ReplaceUnderscores(n) == n;
    TrimIsSlice(n, 0, |n|);
  }

  /** Without underscores, normalising is trimming. */
  lemma NormalizeWordWithoutUnderscores(text: string)
    requires '_' !in text
    ensures NormalizeWord(text) == Trim(text)
  {
    assert ReplaceUnderscores(text) == text;
  }

  /** The two line formats: `word,meaning` and `word=meaning`. */
  datatype Dialect = Csv | Equals

  /** The dialect a file name selects (`filename.toLowerCase().endsWith('.csv')`):
      the csv dialect exactly when the last four characters lower-case to
      `.csv`; every other name, `.txt` and `.md` files included, selects the
      `=` dialect. */
  function DialectOf(filename: string): (d: Dialect)
    ensures d == Csv <==> |filename| >= 4 && ToLower(filename[|filename| - 4..]) == ".csv"
  {
    var f := filename;
    if |f| >= 4 then
      assert f == f[..|f| - 4] + f[|f| - 4..];
      ToLowerConcat(f[..|f| - 4], f[|f| - 4..]);
      if EndsWith(ToLower(filename), ".csv") then Csv else Equals
    else
      if EndsWith(ToLower(filename), ".csv") then Csv else Equals
  }

  function Delimiter(d: Dialect): char
  {
    match d
    case Csv => ','
    case Equals => '='
  }

  /** Any name followed by `.csv` in any mix of letter cases is a csv file. */
  lemma CsvSuffixSelectsCsv(name: string, ext: string)
    requires ToLower(ext) == ".csv"
    ensures DialectOf(name + ext) == Csv
  {
    var f := name + ext;
    assert f[|f| - 4..] == ext;
  }

  /** `/^word,?meaning$/i`: the optional csv header row. */
  predicate IsHeader(line: string)
  {
    var l := ToLower(line);
    l == "wordmeaning" || l == "word,meaning"
  }

  /** The header test holds exactly for `word`, an optional `,`, then
      `meaning`, each letter in either case. */
  lemma IsHeaderShape(line: string)
    ensures IsHeader(line) <==>
      (|line| == 11 || (|line| == 12 && line[4] == ','))
      && ToLower(line[..4]) == "word" && ToLower(line[|line| - 7..]) == "meaning"
  {
    if |line| == 11 {
      var a, b := line[..4], line[4..];
      assert line == a + b;
      ToLowerConcat(a, b);
      assert "wordmeaning" == "word" + "meaning";
      ConcatEq(ToLower(a), ToLower(b), "word", "meaning");
    } else if |line| == 12 {
      var a, c, b := line[..4], line[4..5], line[5..];
      assert line == a + (c + b);
      ToLowerConcat(c, b);
      ToLowerConcat(a, c + b);
      assert "wordmeaning" == "word" + "meaning";
      assert "word,meaning" == "word" + ("," + "meaning");
      ConcatEq(ToLower(a), ToLower(c) + ToLower(b), "word", "," + "meaning");
      ConcatEq(ToLower(c), ToLower(b), ",", "meaning");
      assert ToLower(c) == "," <==> line[4] == ',' by {
        assert c == [line[4]];
        ToLowerSpec(c);
      }
    }
  }

  /** Two concatenations with equally long heads are equal exactly when
      their heads and their tails are. */
  lemma ConcatEq<T>(a: seq<T>, b: seq<T>, c: seq<T>, d: seq<T>)
    requires |a| == |c|
    ensures a + b == c + d <==> a == c && b == d
  {
    if a + b == c + d {
      assert a == (a + b)[..|a|] && c == (c + d)[..|a|];
      assert b == (a + b)[|a|..] && d == (c + d)[|a|..];
    }
  }

  predicate NonEmpty(line: string)
  {
    line != []
  }

  predicate NotHeader(line: string)
  {
    !IsHeader(line)
  }

  /** The record one line yields: `line.split(delim)` keeps the first two
      pieces, and both must be non-empty before any normalisation. */
  function ParseLine(line: string, delim: char): (r: Option<WordItem>)
    ensures r.Some? ==> r.value.tag == None && r.value.correctCount == Some(0)
    ensures r.Some? ==> delim in line
  {
    var fields := Split(line, delim);
    var word := fields[0];
    if word != [] && |fields| >= 2 && fields[1] != [] then
      assert Join(fields, delim) == fields[0] + [delim] + Join(fields[1..], delim);
      Some(WordItem(NormalizeWord(word), Trim(fields[1]), None, Some(0)))
    else
      None
  }

  /** A line without the delimiter yields nothing. */
  lemma ParseLineWithoutDelimiter(line: string, delim: char)
    requires delim !in line
    ensures ParseLine(line, delim) == None
  {
    SplitNoDelimiter(line, delim);
  }

  /** A line `w` delim `m` (then nothing or another delimiter) yields a record
      exactly when `w` and `m` are both non-empty, with the normalised `w` as
      its word and the trimmed `m` as its meaning. */
  lemma ParseLineFields(w: string, m: string, rest: string, delim: char)
    requires delim !in w && delim !in m
    requires rest == [] || rest[0] == delim
    ensures ParseLine(w + [delim] + m + rest, delim)
         == if w != [] && m != [] then Some(WordItem(NormalizeWord(w), Trim(m), None, Some(0))) else None
  {
    SplitFirstTwo(w, m, rest, delim);
  }

  /** The records the loop of `parseWordFile` pushes for `lines`, in order. */
  function Emit(lines: seq<string>, delim: char): (r: seq<WordItem>)
    ensures |r| <= |lines|
    ensures forall w | w in r :: w.tag == None && w.correctCount == Some(0)
  {
    if lines == [] then [] else LineRecord(lines[0], delim) + Emit(lines[1..], delim)
  }

  /** The record of one line, as a sequence of zero or one elements. */
  function LineRecord(line: string, delim: char): (r: seq<WordItem>)
    ensures |r| <= 1
    ensures forall w | w in r :: w.tag == None && w.correctCount == Some(0)
  {
    match ParseLine(line, delim)
    case Some(w) => [w]
    case None => []
  }

  lemma {:induction false} EmitConcat(a: seq<string>, b: seq<string>, delim: char)
    ensures Emit(a + b, delim) == Emit(a, delim) + Emit(b, delim)
  {
    if a == [] {
      assert a + b == b;
    } else {
      assert (a + b)[0] == a[0] && (a + b)[1..] == a[1..] + b;
      EmitConcat(a[1..], b, delim);
      calc {
        Emit(a + b, delim);
        LineRecord(a[0], delim) + Emit(a[1..] + b, delim);
        LineRecord(a[0], delim) + (Emit(a[1..], delim) + Emit(b, delim));
        (LineRecord(a[0], delim) + Emit(a[1..], delim)) + Emit(b, delim);
      }
    }
  }

  lemma EmitSnoc(a: seq<string>, x: string, delim: char)
    ensures Emit(a + [x], delim) == Emit(a, delim) + LineRecord(x, delim)
  {
    EmitConcat(a, [x], delim);
    assert [x][1..] == [];
  }

  /** The trimmed, non-blank lines of `content`, and without header rows in
      the csv dialect. */
  function CandidateLines(content: string, d: Dialect): seq<string>
  {
    var lines := Filter(Map(SplitLines(content), Trim), NonEmpty);
    if d == Csv then Filter(lines, NotHeader) else lines
  }

  /** The loops visit at most one line per `/\r?\n/` piece; every one is
      non-empty and already trimmed, and in the csv dialect none is a header. */
  lemma CandidateLinesShape(content: string, d: Dialect)
    ensures |CandidateLines(content, d)| <= |SplitLines(content)|
    ensures forall l | l in CandidateLines(content, d) :: l != [] && Trim(l) == l
    ensures d == Csv ==> forall l | l in CandidateLines(content, d) :: !IsHeader(l)
  {
    var trimmed := Map(SplitLines(content), Trim);
    var lines := Filter(trimmed, NonEmpty);
    forall l | l in lines ensures l != [] && Trim(l) == l {
      FilterMembers(trimmed, NonEmpty, l);
      var k :| 0 <= k < |trimmed| && trimmed[k] == l;
      TrimIdempotent(SplitLines(content)[k]);
    }
    if d == Csv {
      forall l | l in Filter(lines, NotHeader) ensures l in lines && NotHeader(l) {
        FilterMembers(lines, NotHeader, l);
      }
    }
  }

  /** `parseWordFile(content, filename)` as a value. */
  function ParseSpec(content: string, filename: string): (r: seq<WordItem>)
    ensures |r| <= |SplitLines(content)|
    ensures forall w | w in r :: w.tag == None && w.correctCount == Some(0)
  {
    var d := DialectOf(filename);
    Emit(CandidateLines(content, d), Delimiter(d))
  }

  /** `parseWordFile`. */
  method ParseWordFile(content: string, filename: string := "remote.txt") returns (words: seq<WordItem>)
    ensures words == ParseSpec(content, filename)
    ensures |words| <= |Filter(Map(SplitLines(content), Trim), NonEmpty)|
    ensures forall w | w in words :: w.tag == None && w.correctCount == Some(0)
  {
    var lines := Filter(Map(SplitLines(content), Trim), NonEmpty);
    words := [];
    var lower := ToLower(filename);
    if EndsWith(lower, ".csv") {
      lines := Filter(lines, NotHeader);
      for i := 0 to |lines|
        invariant words == Emit(lines[..i], ',')
      {
        ghost var before := words;
        var fields := Split(lines[i], ',');
        var word := fields[0];
        var meaning := if |fields| >= 2 then Some(fields[1]) else None;
        if word != [] && meaning.Some? && meaning.value != [] {
          words := words + [WordItem(NormalizeWord(word), Trim(meaning.value), None, Some(0))];
        }
        assert words == Emit(lines[..i + 1], ',') by {
          assert words == before + LineRecord(lines[i], ',');
          EmitSnoc(lines[..i], lines[i], ',');
          PrefixGrows(lines, i);
        }
      }
      assert words == ParseSpec(content, filename) by {
        PrefixWhole(lines);
        assert DialectOf(filename) == Csv;
      }
    } else {
      for i := 0 to |lines|
        invariant words == Emit(lines[..i], '=')
      {
        ghost var before := words;
        var fields := Split(lines[i], '=');
        var word := fields[0];
        var meaning := if |fields| >= 2 then Some(fields[1]) else None;
        if word != [] && meaning.Some? && meaning.value != [] {
          words := words + [WordItem(NormalizeWord(word), Trim(meaning.value), None, Some(0))];
        }
        assert words == Emit(lines[..i + 1], '=') by {
          assert words == before + LineRecord(lines[i], '=');
          EmitSnoc(lines[..i], lines[i], '=');
          PrefixGrows(lines, i);
        }
      }
      assert words == ParseSpec(content, filename) by {
        PrefixWhole(lines);
        assert DialectOf(filename) == Equals;
      }
    }
  }
}
