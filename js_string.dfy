/** The JavaScript string built-ins the word-list parser relies on:
    `trim`, `split` on a single character, `split(/\r?\n/)`,
    `toLowerCase` (restricted to ASCII letters) and `endsWith`. */
module JsString {

  /** A character `String.prototype.trim` removes: the ECMAScript
      WhiteSpace and LineTerminator code points. */
  predicate IsSpace(c: char)
  {
    c == '\t' || c == '\n' || c == '\U{B}' || c == '\U{C}' || c == '\r' || c == ' '
    || c == '\U{A0}' || c == '\U{1680}' || ('\U{2000}' <= c <= '\U{200A}')
    || c == '\U{2028}' || c == '\U{2029}' || c == '\U{202F}' || c == '\U{205F}'
    || c == '\U{3000}' || c == '\U{FEFF}'
  }

  predicate AllSpace(s: string)
  {
    forall k | 0 <= k < |s| :: IsSpace(s[k])
  }

  /** The index of the first character at or after `from` that is not
      whitespace, or `|s|` when there is none. */
  function SkipSpaceForward(s: string, from: nat): (i: nat)
    requires from <= |s|
    ensures from <= i <= |s|
    ensures forall k | from <= k < i :: IsSpace(s[k])
    ensures i < |s| ==> !IsSpace(s[i])
    decreases |s| - from
  {
    if from == |s| || !IsSpace(s[from]) then from else SkipSpaceForward(s, from + 1)
  }

  /** The index just after the last character before `upto` that is not
      whitespace, or `0` when there is none. */
  function SkipSpaceBackward(s: string, upto: nat): (j: nat)
    requires upto <= |s|
    ensures j <= upto
    ensures forall k | j <= k < upto :: IsSpace(s[k])
    ensures 0 < j ==> !IsSpace(s[j - 1])
  {
    if upto == 0 || !IsSpace(s[upto - 1]) then upto else SkipSpaceBackward(s, upto - 1)
  }

  /** `trim`: whitespace removed from both ends. */
  function Trim(s: string): (r: string)
    ensures |r| <= |s|
    ensures r == [] || (!IsSpace(r[0]) && !IsSpace(r[|r| - 1]))
    ensures r == [] <==> AllSpace(s)
  {
    var i := SkipSpaceForward(s, 0);
    var j := SkipSpaceBackward(s, |s|);
    if i < j then s[i..j] else []
  }

  /** The three conditions below pin down the value of `Trim(s)`: the slice
      `s[i..j]` whose outside is whitespace and whose edges are not. */
  lemma TrimIsSlice(s: string, i: nat, j: nat)
    requires i <= j <= |s|
    requires forall k | 0 <= k < i :: IsSpace(s[k])
    requires forall k | j <= k < |s| :: IsSpace(s[k])
    requires i < j ==> !IsSpace(s[i]) && !IsSpace(s[j - 1])
    ensures Trim(s) == s[i..j]
  {
    if i < j {
      var i', j' := SkipSpaceForward(s, 0), SkipSpaceBackward(s, |s|);
      assert i' == i by {
        assert i' < |s| ==> !IsSpace(s[i']);
      }
      assert j' == j by {
        assert 0 < j' ==> !IsSpace(s[j' - 1]);
      }
    }
  }

  /** `trim` leaves an already trimmed string as it is. */
  lemma TrimIdempotent(s: string)
    ensures Trim(Trim(s)) == Trim(s)
  {
    var t := Trim(s);
    TrimIsSlice(t, 0, |t|);
  }

  /** One more whitespace character at the end does not change `trim`. */
  lemma TrimIgnoresTrailingSpace(s: string, c: char)
    requires IsSpace(c)
    ensures Trim(s + [c]) == Trim(s)
  {
    var i, j := TrimBounds(s);
    var s' := s + [c];
    assert forall k | 0 <= k < |s| :: s'[k] == s[k];
    assert s'[i..j] == s[i..j];
    TrimIsSlice(s', i, j);
  }

  /** Where `Trim(s)` sits inside `s`. */
  lemma TrimBounds(s: string) returns (i: nat, j: nat)
    ensures i <= j <= |s| && Trim(s) == s[i..j]
    ensures forall k | 0 <= k < i :: IsSpace(s[k])
    ensures forall k | j <= k < |s| :: IsSpace(s[k])
    ensures i < j ==> !IsSpace(s[i]) && !IsSpace(s[j - 1])
  {
    i := SkipSpaceForward(s, 0);
    j := SkipSpaceBackward(s, |s|);
    if j < i {
      j := i;
    }
  }

  /** Every character of `Trim(s)` is a character of `s`. */
  lemma TrimKeepsCharacters(s: string)
    ensures forall c | c in Trim(s) :: c in s
  {
    var i, j := TrimBounds(s);
    forall c | c in Trim(s) ensures c in s {
      var k :| 0 <= k < j - i && s[i..j][k] == c;
      assert s[i + k] == c;
    }
  }

  /** `s.split(d)`: the pieces of `s` between consecutive occurrences of `d`;
      there is always at least one piece. */
  function Split(s: string, d: char): (r: seq<string>)
    ensures |r| >= 1
    ensures forall p | p in r :: d !in p
    ensures forall p, c | p in r && c in p :: c in s
    ensures Join(r, d) == s
  {
    if s == [] then [[]]
    else
      var rest := Split(s[1..], d);
      if s[0] == d then [[]] + rest
      else
        assert (rest[1..] == [] || Join(rest, d) == rest[0] + [d] + Join(rest[1..], d));
        assert forall p | p in rest[1..] :: p in rest;
        [[s[0]] + rest[0]] + rest[1..]
  }

  /** The inverse of `Split`: the pieces glued back with `d` between them. */
  function Join(ps: seq<string>, d: char): string
    requires |ps| >= 1
  {
    if |ps| == 1 then ps[0] else ps[0] + [d] + Join(ps[1..], d)
  }

  /** `Split` and `Join` are inverse: splitting a joined list that contains
      no delimiter gives the list back. */
  lemma {:induction false} SplitJoin(ps: seq<string>, d: char)
    requires |ps| >= 1
    requires forall p | p in ps :: d !in p
    ensures Split(Join(ps, d), d) == ps
  {
    if |ps| == 1 {
      SplitNoDelimiter(ps[0], d);
    } else {
      assert forall p | p in ps[1..] :: p in ps;
      SplitJoin(ps[1..], d);
      SplitConcat(ps[0], Join(ps[1..], d), d);
      SplitNoDelimiter(ps[0], d);
    }
  }

  /** A string without the delimiter is a single piece. */
  lemma {:induction false} SplitNoDelimiter(s: string, d: char)
    requires d !in s
    ensures Split(s, d) == [s]
  {
    if s != [] {
      SplitNoDelimiter(s[1..], d);
    }
  }

  /** Splitting `a + [d] + b` splits `a` and `b` separately. */
  lemma {:induction false} SplitConcat(a: string, b: string, d: char)
    ensures Split(a + [d] + b, d) == Split(a, d) + Split(b, d)
  {
    if a == [] {
      assert a + [d] + b == [d] + b;
      assert ([d] + b)[1..] == b;
    } else {
      assert (a + [d] + b)[1..] == a[1..] + [d] + b;
      SplitConcat(a[1..], b, d);
    }
  }

  /** The first two pieces of a line `w + [d] + m + rest`, where `rest` is
      empty or starts with another delimiter. */
  lemma SplitFirstTwo(w: string, m: string, rest: string, d: char)
    requires d !in w && d !in m
    requires rest == [] || rest[0] == d
    ensures |Split(w + [d] + m + rest, d)| >= 2
    ensures Split(w + [d] + m + rest, d)[0] == w
    ensures Split(w + [d] + m + rest, d)[1] == m
  {
    assert w + [d] + m + rest == w + [d] + (m + rest);
    SplitConcat(w, m + rest, d);
    SplitNoDelimiter(w, d);
    if rest == [] {
      assert m + rest == m;
      SplitNoDelimiter(m, d);
    } else {
      assert m + rest == m + [d] + rest[1..];
      SplitConcat(m, rest[1..], d);
      SplitNoDelimiter(m, d);
    }
  }

  /** `s.split(/\r?\n/)`: pieces separated by a line feed, a carriage return
      directly before a line feed belonging to the separator. */
  function SplitLines(s: string): (r: seq<string>)
    ensures |r| >= 1
    ensures forall p | p in r :: '\n' !in p
  {
    if s == [] then [[]]
    else if s[0] == '\n' then [[]] + SplitLines(s[1..])
    else if s[0] == '\r' && |s| >= 2 && s[1] == '\n' then [[]] + SplitLines(s[2..])
    else
      var rest := SplitLines(s[1..]);
      assert forall p | p in rest[1..] :: p in rest;
      [[s[0]] + rest[0]] + rest[1..]
  }

  /** Every character of every line comes from the input. */
  lemma {:induction false} SplitLinesKeepsCharacters(s: string)
    ensures forall p, c | p in SplitLines(s) && c in p :: c in s
  {
    if s == [] {
    } else if s[0] == '\n' {
      SplitLinesKeepsCharacters(s[1..]);
    } else if s[0] == '\r' && |s| >= 2 && s[1] == '\n' {
      SplitLinesKeepsCharacters(s[2..]);
    } else {
      SplitLinesKeepsCharacters(s[1..]);
      var rest := SplitLines(s[1..]);
      assert forall p | p in rest[1..] :: p in rest;
    }
  }

  /** Each piece of the regular-expression line split is the matching piece of
      the split on `'\n'`, possibly without one trailing carriage return. */
  lemma {:induction false} SplitLinesDropsCarriageReturn(s: string)
    ensures |SplitLines(s)| == |Split(s, '\n')|
    ensures forall k | 0 <= k < |SplitLines(s)| ::
      Split(s, '\n')[k] == SplitLines(s)[k] || Split(s, '\n')[k] == SplitLines(s)[k] + ['\r']
  {
    if s == [] {
    } else if s[0] == '\n' {
      SplitLinesDropsCarriageReturn(s[1..]);
      PiecesWithEmptyHead(SplitLines(s[1..]), Split(s[1..], '\n'));
    } else if s[0] == '\r' && |s| >= 2 && s[1] == '\n' {
      SplitLinesDropsCarriageReturn(s[2..]);
      assert Split(s[1..], '\n') == [[]] + Split(s[2..], '\n') by {
        assert s[1..] == [] + ['\n'] + s[2..];
        SplitConcat([], s[2..], '\n');
      }
      var r := Split(s[1..], '\n');
      assert r[0] == [] && r[1..] == Split(s[2..], '\n');
      assert Split(s, '\n') == [['\r']] + Split(s[2..], '\n') by {
        assert [s[0]] + r[0] == ['\r'];
      }
      PiecesWithCarriageReturn(SplitLines(s[2..]), Split(s[2..], '\n'));
    } else {
      SplitLinesDropsCarriageReturn(s[1..]);
      PiecesWithHead(s[0], SplitLines(s[1..]), Split(s[1..], '\n'));
    }
  }

  /** The pieces of two splits agree up to one trailing carriage return. */
  predicate PiecesAgree(lines: seq<string>, pieces: seq<string>)
  {
    |lines| == |pieces| && forall k | 0 <= k < |lines| :: pieces[k] == lines[k] || pieces[k] == lines[k] + ['\r']
  }

  lemma PiecesWithEmptyHead(lines: seq<string>, pieces: seq<string>)
    requires PiecesAgree(lines, pieces)
    ensures PiecesAgree([[]] + lines, [[]] + pieces)
  {
    assert forall k | 1 <= k < |lines| + 1 :: ([[]] + lines)[k] == lines[k - 1] && ([[]] + pieces)[k] == pieces[k - 1];
  }

  lemma PiecesWithCarriageReturn(lines: seq<string>, pieces: seq<string>)
    requires PiecesAgree(lines, pieces)
    ensures PiecesAgree([[]] + lines, [['\r']] + pieces)
  {
    assert [] + ['\r'] == ['\r'];
    assert forall k | 1 <= k < |lines| + 1 :: ([[]] + lines)[k] == lines[k - 1] && ([['\r']] + pieces)[k] == pieces[k - 1];
  }

  lemma PiecesWithHead(c: char, lines: seq<string>, pieces: seq<string>)
    requires |lines| >= 1 && PiecesAgree(lines, pieces)
    ensures PiecesAgree([[c] + lines[0]] + lines[1..], [[c] + pieces[0]] + pieces[1..])
  {
    assert [c] + (lines[0] + ['\r']) == ([c] + lines[0]) + ['\r'];
    var l, p := [[c] + lines[0]] + lines[1..], [[c] + pieces[0]] + pieces[1..];
    assert forall k | 1 <= k < |l| :: l[k] == lines[k] && p[k] == pieces[k];
  }

  /** After trimming every piece, splitting on `/\r?\n/` and splitting on
      `'\n'` agree, because the carriage return is whitespace. */
  lemma TrimSplitLines(s: string)
    ensures |SplitLines(s)| == |Split(s, '\n')|
    ensures forall k | 0 <= k < |SplitLines(s)| :: Trim(SplitLines(s)[k]) == Trim(Split(s, '\n')[k])
  {
    SplitLinesDropsCarriageReturn(s);
    forall k | 0 <= k < |SplitLines(s)| ensures Trim(SplitLines(s)[k]) == Trim(Split(s, '\n')[k]) {
      if Split(s, '\n')[k] != SplitLines(s)[k] {
        TrimIgnoresTrailingSpace(SplitLines(s)[k], '\r');
      }
    }
  }

  /** `toLowerCase` on one character, restricted to the ASCII letters. */
  function LowerChar(c: char): (r: char)
  {
    if 'A' <= c <= 'Z' then (c as int + 32) as char else c
  }

  predicate IsUpper(c: char)
  {
    'A' <= c <= 'Z'
  }

  /** `toLowerCase`, restricted to the ASCII letters. */
  function ToLower(s: string): (r: string)
    ensures |r| == |s|
  {
    seq(|s|, k requires 0 <= k < |s| => LowerChar(s[k]))
  }

  /** What `ToLower` does: no capital is left, a capital becomes the small
      letter at the same place in the alphabet, and every other character
      stays as it is. */
  lemma ToLowerSpec(s: string)
    ensures forall k | 0 <= k < |s| :: !IsUpper(ToLower(s)[k])
    ensures forall k | 0 <= k < |s| && IsUpper(s[k]) :: ToLower(s)[k] as int - 'a' as int == s[k] as int - 'A' as int
    ensures forall k | 0 <= k < |s| && !IsUpper(s[k]) :: ToLower(s)[k] == s[k]
  {
  }

  /** `toLowerCase` works character by character, so it distributes over
      concatenation. */
  lemma ToLowerConcat(a: string, b: string)
    ensures ToLower(a + b) == ToLower(a) + ToLower(b)
  {
    var l, la, lb := ToLower(a + b), ToLower(a), ToLower(b);
    forall k | 0 <= k < |l| ensures l[k] == (la + lb)[k] {
      if k < |a| {
        assert (a + b)[k] == a[k];
      } else {
        assert (a + b)[k] == b[k - |a|];
      }
    }
  }

  /** Lower-casing twice is lower-casing once. */
  lemma ToLowerIdempotent(s: string)
    ensures ToLower(ToLower(s)) == ToLower(s)
  {
    ToLowerSpec(s);
  }

  /** `s.endsWith(suffix)`. */
  predicate EndsWith(s: string, suffix: string)
  {
    |suffix| <= |s| && s[|s| - |suffix|..] == suffix
  }

  /** `s` ends with `suffix` exactly when it is some string followed by
      `suffix`. */
  lemma EndsWithDecomposes(s: string, suffix: string)
    ensures EndsWith(s, suffix) <==> exists p: string :: s == p + suffix
  {
    if EndsWith(s, suffix) {
      assert s == s[..|s| - |suffix|] + suffix;
    }
    if exists p: string :: s == p + suffix {
      var p: string :| s == p + suffix;
      EndsWithConcat(p, suffix);
    }
  }

  /** Every string followed by `suffix` ends with it. */
  lemma {:induction false} EndsWithConcat(prefix: string, suffix: string)
    ensures EndsWith(prefix + suffix, suffix)
  {
    assert (prefix + suffix)[|prefix|..] == suffix;
  }
}
