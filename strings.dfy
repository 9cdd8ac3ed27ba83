/** The three string operations the converter relies on, written out as Python
    defines them: `s.split()` (split on runs of whitespace), `s.split(sep)` (split
    on every occurrence of one separator) and `sep.join(parts)`. */
module Strings {

  /** The characters Python's `str.isspace()` accepts; `str.split()` with no
      argument breaks on runs of exactly these. */
  predicate IsSpace(c: char) {
    || c == ' '
    || ('\t' <= c <= '\r')
    || ('\U{1C}' <= c <= '\U{1F}')
    || c == '\U{85}' || c == '\U{A0}' || c == '\U{1680}'
    || ('\U{2000}' <= c <= '\U{200A}')
    || c == '\U{2028}' || c == '\U{2029}' || c == '\U{202F}' || c == '\U{205F}'
    || c == '\U{3000}'
  }

  predicate SpaceFree(s: string) {
    forall i :: 0 <= i < |s| ==> !IsSpace(s[i])
  }

  predicate Blank(s: string) {
    forall i :: 0 <= i < |s| ==> IsSpace(s[i])
  }

  /** `s` with every whitespace character removed. */
  function RemoveSpaces(s: string): (r: string)
    ensures SpaceFree(r)
    ensures |r| <= |s|
  {
    if s == [] then []
    else if IsSpace(s[0]) then RemoveSpaces(s[1..])
    else [s[0]] + RemoveSpaces(s[1..])
  }

  function Concat(ws: seq<string>): string {
    if ws == [] then [] else ws[0] + Concat(ws[1..])
  }

  /** The longest suffix of `s` that does not start with whitespace. */
  function SkipSpaces(s: string): (r: string)
    ensures |r| <= |s| && r == s[|s| - |r|..]
    ensures r == [] || !IsSpace(r[0])
    ensures Blank(s[..|s| - |r|])
  {
    if s != [] && IsSpace(s[0]) then
      var r := SkipSpaces(s[1..]);
      assert s[..|s| - |r|] == [s[0]] + s[1..][..|s| - 1 - |r|];
      r
    else s
  }

  /** The length of the longest whitespace-free prefix of `s`. */
  function WordLength(s: string): (n: nat)
    ensures n <= |s|
    ensures SpaceFree(s[..n])
    ensures n < |s| ==> IsSpace(s[n])
    ensures s != [] && !IsSpace(s[0]) ==> n > 0
  {
    if s == [] || IsSpace(s[0]) then 0
    else
      var n := WordLength(s[1..]);
      assert s[..n + 1] == [s[0]] + s[1..][..n];
      n + 1
  }

  /** Python's `s.split()`: the maximal whitespace-free runs of `s`, in order. */
  function Words(s: string): (ws: seq<string>)
    ensures forall i :: 0 <= i < |ws| ==> ws[i] != [] && SpaceFree(ws[i])
    decreases |s|
  {
    var t := SkipSpaces(s);
    if t == [] then []
    else
      var n := WordLength(t);
      var rest := Words(t[n..]);
      WordsPrepend(t[..n], rest);
      [t[..n]] + rest
  }

  lemma WordsPrepend(w: string, rest: seq<string>)
    requires w != [] && SpaceFree(w)
    requires forall i :: 0 <= i < |rest| ==> rest[i] != [] && SpaceFree(rest[i])
    ensures forall i :: 0 <= i < |rest| + 1 ==> ([w] + rest)[i] != [] && SpaceFree(([w] + rest)[i])
  {
    forall i | 0 <= i < |rest| + 1
      ensures ([w] + rest)[i] != [] && SpaceFree(([w] + rest)[i])
    {
      if i > 0 {
        assert ([w] + rest)[i] == rest[i - 1];
      }
    }
  }

  lemma {:induction false} RemoveSpacesAppend(a: string, b: string)
    ensures RemoveSpaces(a + b) == RemoveSpaces(a) + RemoveSpaces(b)
  {
    if a == [] {
      assert a + b == b;
    } else {
      assert (a + b)[0] == a[0];
      assert (a + b)[1..] == a[1..] + b;
      RemoveSpacesAppend(a[1..], b);
    }
  }

  lemma {:induction false} RemoveSpacesOfFree(s: string)
    requires SpaceFree(s)
    ensures RemoveSpaces(s) == s
  {
    if s != [] {
      RemoveSpacesOfFree(s[1..]);
    }
  }

  lemma {:induction false} RemoveSpacesOfBlank(s: string)
    requires Blank(s)
    ensures RemoveSpaces(s) == []
  {
    if s != [] {
      RemoveSpacesOfBlank(s[1..]);
    }
  }

  lemma RemoveSpacesSkip(s: string)
    ensures RemoveSpaces(s) == RemoveSpaces(SkipSpaces(s))
  {
    var t := SkipSpaces(s);
    var blank := s[..|s| - |t|];
    assert s == blank + t;
    RemoveSpacesAppend(blank, t);
    RemoveSpacesOfBlank(blank);
  }

  lemma RemoveSpacesWord(t: string, n: nat)
    requires n <= |t| && SpaceFree(t[..n])
    ensures RemoveSpaces(t) == t[..n] + RemoveSpaces(t[n..])
  {
    assert t == t[..n] + t[n..];
    RemoveSpacesAppend(t[..n], t[n..]);
    RemoveSpacesOfFree(t[..n]);
  }

  /** Splitting on whitespace loses exactly the whitespace: the words, glued back
      together, are the input with its whitespace removed. */
  lemma {:induction false} WordsKeepText(s: string)
    ensures Concat(Words(s)) == RemoveSpaces(s)
    decreases |s|
  {
    var t := SkipSpaces(s);
    RemoveSpacesSkip(s);
    if t != [] {
      var n := WordLength(t);
      RemoveSpacesWord(t, n);
      WordsKeepText(t[n..]);
      assert Words(s) == [t[..n]] + Words(t[n..]);
      assert ([t[..n]] + Words(t[n..]))[1..] == Words(t[n..]);
    }
  }

  /** Python's `s.split(sep)`: the pieces between occurrences of `sep`, always at
      least one (the empty string splits into `[""]`). */
  function SplitOn(s: string, sep: char): (parts: seq<string>)
    ensures |parts| >= 1
    ensures forall i :: 0 <= i < |parts| ==> sep !in parts[i]
  {
    if s == [] then [""]
    else
      var rest := SplitOn(s[1..], sep);
      if s[0] == sep then [""] + rest
      else [[s[0]] + rest[0]] + rest[1..]
  }

  /** Python's `sep.join(parts)`: every character of the result is the
      separator or comes from one of the parts. */
  function Join(parts: seq<string>, sep: char): (r: string)
    ensures forall c :: c in r ==> c == sep || exists i :: 0 <= i < |parts| && c in parts[i]
  {
    if parts == [] then ""
    else if |parts| == 1 then parts[0]
    else parts[0] + [sep] + Join(parts[1..], sep)
  }

  function Last<T>(s: seq<T>): T
    requires s != []
  {
    s[|s| - 1]
  }

  /** Joining the pieces of a split gives back the original string. */
  lemma {:induction false} JoinSplit(s: string, sep: char)
    ensures Join(SplitOn(s, sep), sep) == s
  {
    if s != [] {
      JoinSplit(s[1..], sep);
      var rest := SplitOn(s[1..], sep);
      if s[0] != sep && |rest| > 1 {
        assert ([[s[0]] + rest[0]] + rest[1..])[1..] == rest[1..];
      }
    }
  }

  /** Splitting distributes over a separator: the pieces of `a + sep + b` are
      those of `a` followed by those of `b`. */
  lemma {:induction false} SplitAround(a: string, sep: char, b: string)
    ensures SplitOn(a + [sep] + b, sep) == SplitOn(a, sep) + SplitOn(b, sep)
  {
    if a == [] {
      assert a + [sep] + b == [sep] + b;
      assert ([sep] + b)[1..] == b;
    } else {
      assert (a + [sep] + b)[1..] == a[1..] + [sep] + b;
      SplitAround(a[1..], sep, b);
    }
  }

  lemma {:induction false} SplitOfFree(s: string, sep: char)
    requires sep !in s
    ensures SplitOn(s, sep) == [s]
  {
    if s != [] {
      SplitOfFree(s[1..], sep);
      assert [s[0]] + s[1..] == s;
    }
  }

  /** The other round trip: a non-empty list of separator-free pieces survives
      `join` followed by `split`. */
  lemma {:induction false} SplitJoin(parts: seq<string>, sep: char)
    requires |parts| >= 1
    requires forall i :: 0 <= i < |parts| ==> sep !in parts[i]
    ensures SplitOn(Join(parts, sep), sep) == parts
  {
    SplitOfFree(parts[0], sep);
    if |parts| > 1 {
      SplitJoin(parts[1..], sep);
      SplitAround(parts[0], sep, Join(parts[1..], sep));
    }
  }

  lemma {:induction false} JoinSnoc(parts: seq<string>, sep: char)
    requires |parts| >= 2
    ensures Join(parts, sep) == Join(parts[..|parts| - 1], sep) + [sep] + Last(parts)
  {
    if |parts| > 2 {
      JoinSnoc(parts[1..], sep);
      assert parts[1..][..|parts| - 2] == parts[..|parts| - 1][1..];
    }
  }

  /** `t` is what follows the last `sep` in `s`: `s` ends with `sep + t` and `t`
      holds no `sep`. At most one `t` fits, so this pins `t` down. */
  predicate EndsAfter(s: string, sep: char, t: string) {
    sep !in t && |t| < |s| && s[|s| - |t| - 1..] == [sep] + t
  }

  /** Python's `s.split(sep)[-1]`: the text after the last `sep`, or all of `s`
      when `sep` does not occur. */
  function AfterLast(s: string, sep: char): (r: string)
    ensures sep !in s ==> r == s
    ensures sep in s ==> EndsAfter(s, sep, r)
  {
    var parts := SplitOn(s, sep);
    JoinSplit(s, sep);
    if |parts| >= 2 then
      JoinSnoc(parts, sep);
      Last(parts)
    else
      Last(parts)
  }

  /** Whitespace-free pieces stay whitespace-free when split further. */
  lemma {:induction false} SplitSpaceFree(s: string, sep: char)
    requires SpaceFree(s)
    ensures forall i :: 0 <= i < |SplitOn(s, sep)| ==> SpaceFree(SplitOn(s, sep)[i])
  {
    if s != [] {
      SplitSpaceFree(s[1..], sep);
    }
  }

  lemma {:induction false} JoinSpaceFree(parts: seq<string>, sep: char)
    requires !IsSpace(sep)
    requires forall i :: 0 <= i < |parts| ==> SpaceFree(parts[i])
    ensures SpaceFree(Join(parts, sep))
  {
    if |parts| > 1 {
      JoinSpaceFree(parts[1..], sep);
    }
  }

  /** A separator-joined string is at least as long as each of its pieces. */
  lemma {:induction false} JoinLength(parts: seq<string>, sep: char, k: nat)
    requires k < |parts|
    ensures |Join(parts, sep)| >= |parts[k]|
  {
    if k > 0 {
      JoinLength(parts[1..], sep, k - 1);
    }
  }

  /** The first piece of a split starts with the string's first character,
      unless that character is the separator. */
  lemma {:induction false} SplitFirst(s: string, sep: char)
    requires s != [] && s[0] != sep
    ensures SplitOn(s, sep)[0] != [] && SplitOn(s, sep)[0][0] == s[0]
  {
  }

  /** A whitespace-free word followed by whitespace or by nothing is split off
      as a whole. */
  lemma WordsCons(w: string, tail: string)
    requires w != [] && SpaceFree(w)
    requires tail == [] || IsSpace(tail[0])
    ensures Words(w + tail) == [w] + Words(tail)
  {
    if tail == [] {
      assert w + tail == w;
      WordsOfWord(w);
    } else {
      WordsConsSpace(w, tail);
    }
  }

  /** A whitespace-free word followed by whitespace is split off as a whole. */
  lemma WordsConsSpace(w: string, tail: string)
    requires w != [] && SpaceFree(w)
    requires tail != [] && IsSpace(tail[0])
    ensures Words(w + tail) == [w] + Words(tail)
  {
    var s := w + tail;
    assert SkipSpaces(s) == s;
    WordAfter(w, tail);
    assert s[..|w|] == w;
    assert s[|w|..] == tail;
  }

  /** A whitespace-free word with nothing after it is a single field, as in
      the last line of a file without a final newline. */
  lemma WordsOfWord(w: string)
    requires w != [] && SpaceFree(w)
    ensures Words(w) == [w]
  {
    assert SkipSpaces(w) == w;
    assert WordLength(w) == |w|;
    assert w[..|w|] == w && w[|w|..] == [];
  }

  lemma WordsOfBlank(s: string)
    requires Blank(s)
    ensures Words(s) == []
  {
    if s != [] {
      WordsOfBlank(s[1..]);
    }
  }

  lemma WordsSkip(s: string)
    requires s != [] && IsSpace(s[0])
    ensures Words(s) == Words(s[1..])
  {
  }

  lemma JoinCons(fields: seq<string>, sep: char)
    requires |fields| >= 2
    ensures Join(fields, sep) + "\n" == fields[0] + ([sep] + (Join(fields[1..], sep) + "\n"))
  {
  }

  /** A word followed by nothing but whitespace is the only word. */
  lemma WordsOfField(f: string, tail: string)
    requires f != [] && SpaceFree(f)
    requires tail != [] && Blank(tail)
    ensures Words(f + tail) == [f]
  {
    WordsCons(f, tail);
    WordsOfBlank(tail);
  }

  /** Whitespace-split a tab-separated line: a record of non-empty, whitespace-free
      fields written as `"\t".join(fields) + "\n"` splits back into those fields. */
  lemma {:induction false} WordsOfJoined(fields: seq<string>)
    requires |fields| >= 1
    requires forall i :: 0 <= i < |fields| ==> fields[i] != [] && SpaceFree(fields[i])
    ensures Words(Join(fields, '\t') + "\n") == fields
    decreases |fields|, 1
  {
    if |fields| == 1 {
      assert Blank("\n");
      WordsOfField(fields[0], "\n");
    } else {
      WordsOfJoinedStep(fields);
    }
  }

  lemma {:induction false} WordsOfJoinedStep(fields: seq<string>)
    requires |fields| >= 2
    requires forall i :: 0 <= i < |fields| ==> fields[i] != [] && SpaceFree(fields[i])
    ensures Words(Join(fields, '\t') + "\n") == fields
    decreases |fields|, 0
  {
    var more := Join(fields[1..], '\t') + "\n";
    var tail := ['\t'] + more;
    calc {
      Words(Join(fields, '\t') + "\n");
      { JoinCons(fields, '\t'); }
      Words(fields[0] + tail);
      { WordsCons(fields[0], tail); }
      [fields[0]] + Words(tail);
      { WordsSkip(tail); assert tail[1..] == more; }
      [fields[0]] + Words(more);
      { WordsOfJoined(fields[1..]); }
      [fields[0]] + fields[1..];
      fields;
    }
  }

  lemma {:induction false} WordAfter(w: string, tail: string)
    requires w != [] && SpaceFree(w)
    requires tail != [] && IsSpace(tail[0])
    ensures WordLength(w + tail) == |w|
  {
    if |w| > 1 {
      assert (w + tail)[1..] == w[1..] + tail;
      WordAfter(w[1..], tail);
    } else {
      assert (w + tail)[1..] == tail;
    }
  }
}
