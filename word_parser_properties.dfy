/** What `parseWordFile` promises about its output, proved of `ParseSpec`,
    the value `WordParser.ParseWordFile` computes. */
module WordParserProperties {
  import opened JsString
  import opened JsArray
  import opened Word
  import opened WordParser

  /** What one raw line contributes in dialect `d`: nothing when it is blank
      after trimming or, in the csv dialect, a header row; otherwise the
      record of the trimmed line, if any. */
  function LineOutcome(line: string, d: Dialect): (r: seq<WordItem>)
    ensures |r| <= 1
  {
    var t := Trim(line);
    if t == [] || (d == Csv && IsHeader(t)) then [] else LineRecord(t, Delimiter(d))
  }

  /** A reference reading of the parser, line by line: the outcomes of the
      raw lines, concatenated in order. */
  function PerLine(lines: seq<string>, d: Dialect): (r: seq<WordItem>)
    ensures |r| <= |lines|
  {
    if lines == [] then [] else LineOutcome(lines[0], d) + PerLine(lines[1..], d)
  }

  /** `JsString.TrimSplitLines` restated on whole line lists: trimming the
      pieces of the `/\r?\n/` split gives the trimmed pieces of the split on
      `'\n'`. */
  lemma TrimmedLinesIgnoreCarriageReturns(content: string)
    ensures Map(SplitLines(content), Trim) == Map(Split(content, '\n'), Trim)
  {
    TrimSplitLines(content);
  }

  /** Parsing text made of two parts joined by a line feed parses each part
      and keeps their records in order. */
  lemma ParseSpecConcat(a: string, b: string, filename: string)
    ensures ParseSpec(a + "\n" + b, filename) == ParseSpec(a, filename) + ParseSpec(b, filename)
  {
    var d := DialectOf(filename);
    var c := a + "\n" + b;
    assert c == a + ['\n'] + b;
    SplitConcat(a, b, '\n');
    TrimmedLinesIgnoreCarriageReturns(a);
    TrimmedLinesIgnoreCarriageReturns(b);
    TrimmedLinesIgnoreCarriageReturns(c);
    MapConcat(Split(a, '\n'), Split(b, '\n'), Trim);
    var ta, tb := Map(SplitLines(a), Trim), Map(SplitLines(b), Trim);
    assert Map(SplitLines(c), Trim) == ta + tb;
    FilterConcat(ta, tb, NonEmpty);
    var fa, fb := Filter(ta, NonEmpty), Filter(tb, NonEmpty);
    if d == Csv {
      FilterConcat(fa, fb, NotHeader);
    }
    assert CandidateLines(c, d) == CandidateLines(a, d) + CandidateLines(b, d);
    EmitConcat(CandidateLines(a, d), CandidateLines(b, d), Delimiter(d));
  }

  /** A single line (no line feed) contributes its `LineOutcome`. */
  lemma ParseSpecSingleLine(line: string, filename: string)
    requires '\n' !in line
    ensures ParseSpec(line, filename) == LineOutcome(line, DialectOf(filename))
  {
    var d := DialectOf(filename);
    TrimmedLinesIgnoreCarriageReturns(line);
    SplitNoDelimiter(line, '\n');
    var t := Trim(line);
    assert Map(SplitLines(line), Trim) == [t];
    FilterSingle(t, NonEmpty);
    if t != [] {
      FilterSingle(t, NotHeader);
    }
    EmitConcat([], CandidateLines(line, d), Delimiter(d));
    assert Emit([], Delimiter(d)) == [];
    if CandidateLines(line, d) == [t] {
      EmitSnoc([], t, Delimiter(d));
      assert [] + [t] == [t];
    }
  }

  /** The parser agrees with the line-by-line reference on the pieces of a
      text split at its line feeds. */
  lemma {:induction false} ParseSpecOfJoinedLines(lines: seq<string>, filename: string)
    requires |lines| >= 1
    requires forall l | l in lines :: '\n' !in l
    ensures ParseSpec(Join(lines, '\n'), filename) == PerLine(lines, DialectOf(filename))
  {
    var d := DialectOf(filename);
    ParseSpecSingleLine(lines[0], filename);
    if |lines| == 1 {
      assert PerLine(lines, d) == LineOutcome(lines[0], d) + PerLine([], d);
    } else {
      assert forall l | l in lines[1..] :: l in lines;
      ParseSpecOfJoinedLines(lines[1..], filename);
      assert Join(lines, '\n') == lines[0] + "\n" + Join(lines[1..], '\n');
      ParseSpecConcat(lines[0], Join(lines[1..], '\n'), filename);
    }
  }

  /** So `parseWordFile` is the line-by-line reference applied to the lines
      of its input: records come out in the order of their lines, and each
      line contributes at most one. */
  lemma ParseSpecIsPerLine(content: string, filename: string)
    ensures ParseSpec(content, filename) == PerLine(Split(content, '\n'), DialectOf(filename))
    ensures |ParseSpec(content, filename)| <= |Split(content, '\n')|
  {
    ParseSpecOfJoinedLines(Split(content, '\n'), filename);
  }

  /** Lines that are blank after trimming contribute nothing. */
  lemma {:induction false} PerLineOfBlankLines(lines: seq<string>, d: Dialect)
    requires forall l | l in lines :: AllSpace(l)
    ensures PerLine(lines, d) == []
  {
    if lines != [] {
      assert lines[0] in lines;
      assert forall l | l in lines[1..] :: l in lines;
      PerLineOfBlankLines(lines[1..], d);
    }
  }

  /** Lines without the delimiter contribute nothing. */
  lemma {:induction false} PerLineWithoutDelimiter(lines: seq<string>, d: Dialect)
    requires forall l | l in lines :: Delimiter(d) !in l
    ensures PerLine(lines, d) == []
  {
    if lines != [] {
      assert lines[0] in lines;
      TrimKeepsCharacters(lines[0]);
      ParseLineWithoutDelimiter(Trim(lines[0]), Delimiter(d));
      assert forall l | l in lines[1..] :: l in lines;
      PerLineWithoutDelimiter(lines[1..], d);
    }
  }

  /** A text in which the dialect's delimiter never occurs yields no record. */
  lemma ContentWithoutDelimiterYieldsNothing(content: string, filename: string)
    requires Delimiter(DialectOf(filename)) !in content
    ensures ParseSpec(content, filename) == []
  {
    ParseSpecIsPerLine(content, filename);
    PerLineWithoutDelimiter(Split(content, '\n'), DialectOf(filename));
  }

  /** Text that is whitespace only, line feeds and carriage returns
      included, yields no record. */
  lemma BlankContentYieldsNothing(content: string, filename: string)
    requires AllSpace(content)
    ensures ParseSpec(content, filename) == []
  {
    ParseSpecIsPerLine(content, filename);
    var ps := Split(content, '\n');
    forall l | l in ps ensures AllSpace(l) {
      forall k | 0 <= k < |l| ensures IsSpace(l[k]) {
        assert l[k] in l;
        assert l[k] in content;
      }
    }
    PerLineOfBlankLines(ps, DialectOf(filename));
  }

  /** A line that contributes nothing, followed by nothing or by a line
      feed and more text, can be dropped from the front of a text. */
  lemma LeadingIgnoredLine(line: string, after: string, filename: string)
    requires '\n' !in line
    requires LineOutcome(line, DialectOf(filename)) == []
    requires after == [] || after[0] == '\n'
    ensures ParseSpec(line + after, filename) == ParseSpec(after, filename)
  {
    if after == [] {
      assert ParseSpec(line + after, filename) == ParseSpec(after, filename) by {
        ParseSpecSingleLine(line, filename);
        BlankContentYieldsNothing([], filename);
        assert line + after == line;
      }
    } else {
      var a := after[1..];
      assert line + after == line + "\n" + a;
      assert after == [] + "\n" + a;
      assert ParseSpec(line + "\n" + a, filename) == ParseSpec([] + "\n" + a, filename) by {
        ParseSpecSingleLine(line, filename);
        BlankContentYieldsNothing([], filename);
        SilentFirstLine(line, a, filename);
      }
    }
  }

  /** Two texts whose first lines both yield nothing parse alike when their
      remaining lines are the same. */
  lemma SilentFirstLine(line: string, a: string, filename: string)
    requires ParseSpec(line, filename) == [] && ParseSpec([], filename) == []
    ensures ParseSpec(line + "\n" + a, filename) == ParseSpec([] + "\n" + a, filename)
  {
    ParseSpecConcat(line, a, filename);
    ParseSpecConcat([], a, filename);
  }

  /** A line that contributes nothing can be removed from anywhere in the
      text, first and last line included, without changing the result:
      `before` is empty or ends with a line feed, and `after` is empty or
      starts with one. */
  lemma IgnoredLineIsInvisible(before: string, line: string, after: string, filename: string)
    requires '\n' !in line
    requires LineOutcome(line, DialectOf(filename)) == []
    requires before == [] || before[|before| - 1] == '\n'
    requires after == [] || after[0] == '\n'
    ensures ParseSpec(before + line + after, filename) == ParseSpec(before + after, filename)
  {
    if before == [] {
      LeadingIgnoredLine(line, after, filename);
      assert before + line + after == line + after;
      assert before + after == after;
    } else {
      InnerIgnoredLine(before, line, after, filename);
    }
  }

  /** `IgnoredLineIsInvisible` for a line that follows a line feed. */
  lemma InnerIgnoredLine(before: string, line: string, after: string, filename: string)
    requires '\n' !in line
    requires LineOutcome(line, DialectOf(filename)) == []
    requires before != [] && before[|before| - 1] == '\n'
    requires after == [] || after[0] == '\n'
    ensures ParseSpec(before + line + after, filename) == ParseSpec(before + after, filename)
  {
    var b := before[..|before| - 1];
    assert before + line + after == b + "\n" + (line + after) && before + after == b + "\n" + after by {
      assert before == b + "\n";
    }
    assert ParseSpec(b + "\n" + (line + after), filename) == ParseSpec(b + "\n" + after, filename) by {
      LeadingIgnoredLine(line, after, filename);
      ParseSpecConcat(b, line + after, filename);
      ParseSpecConcat(b, after, filename);
    }
  }

  /** A blank or whitespace-only line never produces a record: removing it
      changes nothing. */
  lemma BlankLineIsIgnored(before: string, line: string, after: string, filename: string)
    requires '\n' !in line && AllSpace(line)
    requires before == [] || before[|before| - 1] == '\n'
    requires after == [] || after[0] == '\n'
    ensures ParseSpec(before + line + after, filename) == ParseSpec(before + after, filename)
  {
    IgnoredLineIsInvisible(before, line, after, filename);
  }

  /** In the csv dialect the header row `word,meaning` (or `wordmeaning`), in
      any letter case and with any surrounding whitespace, is never emitted,
      wherever it stands. */
  lemma CsvHeaderIsIgnored(before: string, line: string, after: string, filename: string)
    requires DialectOf(filename) == Csv
    requires '\n' !in line && IsHeader(Trim(line))
    requires before == [] || before[|before| - 1] == '\n'
    requires after == [] || after[0] == '\n'
    ensures ParseSpec(before + line + after, filename) == ParseSpec(before + after, filename)
  {
    IgnoredLineIsInvisible(before, line, after, filename);
  }

  /** A line whose trimmed text lacks the dialect's delimiter produces no
      record. */
  lemma LineWithoutDelimiterIsIgnored(before: string, line: string, after: string, filename: string)
    requires '\n' !in line && Delimiter(DialectOf(filename)) !in Trim(line)
    requires before == [] || before[|before| - 1] == '\n'
    requires after == [] || after[0] == '\n'
    ensures ParseSpec(before + line + after, filename) == ParseSpec(before + after, filename)
  {
    ParseLineWithoutDelimiter(Trim(line), Delimiter(DialectOf(filename)));
    IgnoredLineIsInvisible(before, line, after, filename);
  }

  /** A line whose trimmed text is `w`, the delimiter, `m` and then nothing or
      another delimiter contributes the record `normalizeWord(w)`,
      `trim(m)`, `correctCount: 0` when both `w` and `m` are non-empty (and
      it is not a csv header), and nothing when either is empty. */
  lemma LineFields(line: string, filename: string, w: string, m: string, rest: string)
    requires '\n' !in line
    requires Delimiter(DialectOf(filename)) !in w && Delimiter(DialectOf(filename)) !in m
    requires rest == [] || rest[0] == Delimiter(DialectOf(filename))
    requires Trim(line) == w + [Delimiter(DialectOf(filename))] + m + rest
    requires !(DialectOf(filename) == Csv && IsHeader(Trim(line)))
    ensures ParseSpec(line, filename)
         == if w != [] && m != [] then [WordItem(NormalizeWord(w), Trim(m), None, Some(0))] else []
  {
    ParseSpecSingleLine(line, filename);
    ParseLineFields(w, m, rest, Delimiter(DialectOf(filename)));
  }

  /** Any name followed by `.txt`, in any letter case, selects the `=`
      dialect. */
  lemma TxtSuffixSelectsEquals(name: string, ext: string)
    requires ToLower(ext) == ".txt"
    ensures DialectOf(name + ext) == Equals
  {
    var f := name + ext;
    assert ToLower(f)[|f| - 4..] == ToLower(ext);
  }

  /** A string without whitespace at its ends is its own trim. */
  lemma TrimmedLiteral(s: string)
    requires s != [] && !IsSpace(s[0]) && !IsSpace(s[|s| - 1])
    ensures Trim(s) == s
  {
    TrimIsSlice(s, 0, |s|);
  }

  /** A well-formed line: `w`, the dialect's delimiter, `m`, where neither
      part holds a delimiter or a line feed, `w` is non-empty and starts with
      a non-whitespace character, `m` is non-empty and neither starts nor ends
      with whitespace, and the line is not a csv header, gives the one record
      `normalizeWord(w)`, `m`. */
  lemma WellFormedLine(line: string, filename: string, w: string, m: string)
    requires line == w + [Delimiter(DialectOf(filename))] + m
    requires !(DialectOf(filename) == Csv && IsHeader(line))
    requires Delimiter(DialectOf(filename)) !in w && Delimiter(DialectOf(filename)) !in m
    requires '\n' !in w && '\n' !in m
    requires w != [] && !IsSpace(w[0]) && m != [] && !IsSpace(m[|m| - 1]) && !IsSpace(m[0])
    ensures ParseSpec(line, filename) == [WordItem(NormalizeWord(w), m, None, Some(0))]
  {
    var d := Delimiter(DialectOf(filename));
    assert line == w + [d] + m + [];
    assert line[0] == w[0] && line[|line| - 1] == m[|m| - 1];
    TrimmedLiteral(line);
    TrimmedLiteral(m);
    LineFields(line, filename, w, m, []);
  }

  /** `WellFormedLine` for parts made of lower-case ASCII letters, which
      normalising leaves as they are. */
  lemma SimpleLine(line: string, filename: string, w: string, m: string)
    requires line == w + [Delimiter(DialectOf(filename))] + m
    requires !(DialectOf(filename) == Csv && IsHeader(line))
    requires w != [] && m != []
    requires forall k | 0 <= k < |w| :: 'a' <= w[k] <= 'z'
    requires forall k | 0 <= k < |m| :: 'a' <= m[k] <= 'z'
    ensures ParseSpec(line, filename) == [WordItem(w, m, None, Some(0))]
  {
    LettersOnly(w);
    LettersOnly(m);
    assert Delimiter(DialectOf(filename)) in {',', '='};
    WellFormedLine(line, filename, w, m);
    TrimmedLiteral(w);
    NormalizeWordWithoutUnderscores(w);
  }

  /** Lower-case ASCII letters are neither whitespace, nor an underscore,
      nor a delimiter, nor a line feed. */
  lemma LettersOnly(s: string)
    requires forall k | 0 <= k < |s| :: 'a' <= s[k] <= 'z'
    ensures forall k | 0 <= k < |s| :: !IsSpace(s[k])
    ensures '_' !in s && ',' !in s && '=' !in s && '\n' !in s
  {
  }

  /** The file name `list.txt` used by the concrete texts below selects the `=` dialect. */
  lemma ListTxtSelectsEquals(filename: string)
    requires filename == "list.txt"
    ensures DialectOf(filename) == Equals
  {
    assert filename == "list" + ".txt" && ToLower(".txt") == ".txt";
    TxtSuffixSelectsEquals("list", ".txt");
  }

  /** Under the default file name `remote.txt` every line is read in the
      `=` dialect, with no header filter. */
  lemma RemoteTxtSelectsEquals(content: string, filename: string)
    requires filename == "remote.txt"
    ensures DialectOf(filename) == Equals
    ensures ParseSpec(content, filename) == Emit(Filter(Map(SplitLines(content), Trim), NonEmpty), '=')
  {
    assert filename == "remote" + ".txt" && ToLower(".txt") == ".txt";
    TxtSuffixSelectsEquals("remote", ".txt");
  }

  /** `hello=greeting\nworld=earth` in `list.txt` gives two records, in order. */
  lemma ScenarioTwoLines(content: string, filename: string)
    requires content == "hello=greeting\nworld=earth" && filename == "list.txt"
    ensures ParseSpec(content, filename)
         == [WordItem("hello", "greeting", None, Some(0)), WordItem("world", "earth", None, Some(0))]
  {
    assert content == "hello" + "=" + "greeting" + "\n" + ("world" + "=" + "earth");
    ListTxtSelectsEquals(filename);
    TwoSimpleLines(filename, "hello", "greeting", "world", "earth");
  }

  /** Two lines `w1=m1` and `w2=m2` of lower-case ASCII letters. */
  lemma TwoSimpleLines(filename: string, w1: string, m1: string, w2: string, m2: string)
    requires DialectOf(filename) == Equals
    requires w1 != [] && m1 != [] && w2 != [] && m2 != []
    requires forall k | 0 <= k < |w1| :: 'a' <= w1[k] <= 'z'
    requires forall k | 0 <= k < |m1| :: 'a' <= m1[k] <= 'z'
    requires forall k | 0 <= k < |w2| :: 'a' <= w2[k] <= 'z'
    requires forall k | 0 <= k < |m2| :: 'a' <= m2[k] <= 'z'
    ensures ParseSpec(w1 + "=" + m1 + "\n" + (w2 + "=" + m2), filename)
         == [WordItem(w1, m1, None, Some(0)), WordItem(w2, m2, None, Some(0))]
  {
    ParseSpecConcat(w1 + "=" + m1, w2 + "=" + m2, filename);
    SimpleLine(w1 + "=" + m1, filename, w1, m1);
    SimpleLine(w2 + "=" + m2, filename, w2, m2);
  }

  /** `word,meaning\ncat,animal` in `list.csv`: the header row is dropped. */
  lemma ScenarioCsvHeader(content: string, filename: string)
    requires content == "word,meaning\ncat,animal" && filename == "list.csv"
    ensures ParseSpec(content, filename) == [WordItem("cat", "animal", None, Some(0))]
  {
    var header := "word,meaning";
    assert content == header + "\n" + ("cat" + "," + "animal");
    assert ToLower(header) == header && !IsSpace(header[0]) && !IsSpace(header[11]) && '\n' !in header;
    assert ToLower("cat,animal")[0] != 'w';
    assert filename == "list" + ".csv" && ToLower(".csv") == ".csv";
    CsvSuffixSelectsCsv("list", ".csv");
    HeaderThenSimpleLine(filename, header, "cat", "animal");
  }

  /** A header row followed by a line `w,m` of lower-case ASCII letters, in
      a csv file. */
  lemma HeaderThenSimpleLine(filename: string, header: string, w: string, m: string)
    requires DialectOf(filename) == Csv
    requires '\n' !in header && header != [] && !IsSpace(header[0]) && !IsSpace(header[|header| - 1])
    requires IsHeader(header) && !IsHeader(w + "," + m)
    requires w != [] && m != []
    requires forall k | 0 <= k < |w| :: 'a' <= w[k] <= 'z'
    requires forall k | 0 <= k < |m| :: 'a' <= m[k] <= 'z'
    ensures ParseSpec(header + "\n" + (w + "," + m), filename) == [WordItem(w, m, None, Some(0))]
  {
    var line := w + "," + m;
    TrimmedLiteral(header);
    ParseSpecSingleLine(header, filename);
    SimpleLine(line, filename, w, m);
    ParseSpecConcat(header, line, filename);
  }

  /** `foo_bar=baz qux`: the underscore becomes a space. */
  lemma ScenarioUnderscore(content: string, filename: string)
    requires content == "foo_bar=baz qux" && filename == "list.txt"
    ensures ParseSpec(content, filename) == [WordItem("foo bar", "baz qux", None, Some(0))]
  {
    var w, m := "foo_bar", "baz qux";
    assert content == w + ['='] + m;
    assert '\n' !in w && '\n' !in m && '=' !in w && '=' !in m;
    assert !IsSpace(w[0]) && !IsSpace(m[0]) && !IsSpace(m[6]);
    assert ReplaceUnderscores(w) == "foo bar";
    assert !IsSpace("foo bar"[0]) && !IsSpace("foo bar"[6]);
    ListTxtSelectsEquals(filename);
    TrimmedLiteral("foo bar");
    WellFormedLine(content, filename, w, m);
  }

  /** A line with neither delimiter yields nothing, whatever the file name. */
  lemma ScenarioNoDelimiter(content: string, filename: string)
    requires content == "incomplete_line_no_delimiter"
    ensures ParseSpec(content, filename) == []
  {
    assert ',' !in content && '=' !in content;
    ContentWithoutDelimiterYieldsNothing(content, filename);
  }

  /** The meaning is the text between the first and the second delimiter:
      `a=b=c` gives meaning `b`. */
  lemma MeaningStopsAtSecondDelimiter(content: string, filename: string)
    requires content == "a=b=c" && filename == "remote.txt"
    ensures ParseSpec(content, filename) == [WordItem("a", "b", None, Some(0))]
  {
    var w, m, rest := "a", "b", "=c";
    assert content == w + ['='] + m + rest;
    assert '\n' !in content && '=' !in w && '=' !in m && '_' !in w;
    assert !IsSpace(content[0]) && !IsSpace(content[4]) && !IsSpace(w[0]) && !IsSpace(m[0]);
    assert filename == "remote" + ".txt" && ToLower(".txt") == ".txt";
    TxtSuffixSelectsEquals("remote", ".txt");
    TrimmedLiteral(content);
    TrimmedLiteral(w);
    TrimmedLiteral(m);
    NormalizeWordWithoutUnderscores(w);
    LineFields(content, filename, w, m, rest);
  }

  /** Emptiness is tested before normalising: `_=x` yields an empty word. */
  lemma UnderscoreWordBecomesEmpty(content: string, filename: string)
    requires content == "_=x" && filename == "remote.txt"
    ensures ParseSpec(content, filename) == [WordItem("", "x", None, Some(0))]
  {
    var w, m := "_", "x";
    assert content == w + ['='] + m;
    assert '\n' !in w && '\n' !in m && '=' !in w && '=' !in m;
    assert !IsSpace(w[0]) && !IsSpace(m[0]);
    assert ReplaceUnderscores(w) == " " && AllSpace(" ");
    assert filename == "remote" + ".txt" && ToLower(".txt") == ".txt";
    TxtSuffixSelectsEquals("remote", ".txt");
    WellFormedLine(content, filename, w, m);
  }

  /** `=x` and `x=` have an empty part and yield nothing. */
  lemma EmptyPartYieldsNothing(missingWord: string, missingMeaning: string, filename: string)
    requires missingWord == "=x" && missingMeaning == "x=" && filename == "remote.txt"
    ensures ParseSpec(missingWord, filename) == []
    ensures ParseSpec(missingMeaning, filename) == []
  {
    var x: string := "x";
    assert missingWord == [] + ['='] + x + [] && missingMeaning == x + ['='] + [] + [];
    assert '\n' !in missingWord && '\n' !in missingMeaning && '=' !in x;
    assert !IsSpace(missingWord[0]) && !IsSpace(missingWord[1]);
    assert !IsSpace(missingMeaning[0]) && !IsSpace(missingMeaning[1]);
    assert filename == "remote" + ".txt" && ToLower(".txt") == ".txt";
    TxtSuffixSelectsEquals("remote", ".txt");
    TrimmedLiteral(missingWord);
    TrimmedLiteral(missingMeaning);
    LineFields(missingWord, filename, [], x, []);
    LineFields(missingMeaning, filename, x, [], []);
  }

  /** Outside the csv dialect there is no header filtering: `word=meaning`
      is an ordinary record. */
  lemma HeaderWordsInEqualsDialect(content: string, filename: string)
    requires content == "word=meaning" && filename == "remote.txt"
    ensures ParseSpec(content, filename) == [WordItem("word", "meaning", None, Some(0))]
  {
    assert filename == "remote" + ".txt" && ToLower(".txt") == ".txt";
    TxtSuffixSelectsEquals("remote", ".txt");
    EqualsLine(content, filename, "word", "meaning");
  }

  /** `SimpleLine` in the `=` dialect, where no header filter applies. */
  lemma EqualsLine(line: string, filename: string, w: string, m: string)
    requires DialectOf(filename) == Equals
    requires line == w + "=" + m && w != [] && m != []
    requires forall k | 0 <= k < |w| :: 'a' <= w[k] <= 'z'
    requires forall k | 0 <= k < |m| :: 'a' <= m[k] <= 'z'
    ensures ParseSpec(line, filename) == [WordItem(w, m, None, Some(0))]
  {
    SimpleLine(line, filename, w, m);
  }
}
