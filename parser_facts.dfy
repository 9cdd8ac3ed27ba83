/** What the parser guarantees about a whole corpus, proved over its line-by-line
    specification `Parser.ParseLines`. */
module ParserFacts {
  import opened Strings
  import opened Conllu
  import opened Parser

  /** The number of blank lines among `lines`. */
  function BlankLines(lines: seq<string>): nat {
    if lines == [] then 0
    else BlankLines(lines[..|lines| - 1]) + (if Last(lines) == BlankLine then 1 else 0)
  }

  /** The comment lines among `lines`, in order. */
  function CommentLines(lines: seq<string>): seq<string> {
    if lines == [] then []
    else CommentLines(lines[..|lines| - 1]) + (if IsComment(Last(lines)) then [Last(lines)] else [])
  }

  /** The texts of the comment records among `rs`, in order. */
  function Comments(rs: seq<Record>): seq<string> {
    if rs == [] then []
    else Comments(rs[..|rs| - 1]) + (if Last(rs).Comment? then [Last(rs).text] else [])
  }

  /** All records of the given sentences, one sentence after another. */
  function Flatten(ss: seq<Sentence>): seq<Record> {
    if ss == [] then [] else Flatten(ss[..|ss| - 1]) + Last(ss)
  }

  /** A finished sentence ends with a token whose misc column holds no
      `SpaceAfter=No` entry. */
  predicate Closed(s: Sentence) {
    s != [] && Last(s).Token? && Last(s).fields != [] &&
    NoSpaceMarker !in Entries(Last(Last(s).fields))
  }

  /** A successful parse of a non-empty corpus is a successful parse of all but its
      last line followed by one more step. */
  lemma StepOfLast(lines: seq<string>)
    requires lines != [] && ParseLines(lines).Ok?
    ensures ParseLines(lines[..|lines| - 1]).Ok?
    ensures ParseLines(lines) ==
      Step(ParseLines(lines[..|lines| - 1]).value, Last(lines), |lines| - 1)
  {
  }

  /** Exactly one sentence is produced per blank line, and the buffer is empty
      right after one. */
  lemma {:induction false} OneSentencePerBlankLine(lines: seq<string>)
    requires ParseLines(lines).Ok?
    ensures |ParseLines(lines).value.sentences| == BlankLines(lines)
    ensures lines != [] && Last(lines) == BlankLine ==> ParseLines(lines).value.buffer == []
  {
    if lines != [] {
      StepOfLast(lines);
      OneSentencePerBlankLine(lines[..|lines| - 1]);
    }
  }

  /** Every sentence the parser returns has been closed: its last record is a
      token whose misc column has no `SpaceAfter=No` entry. */
  lemma {:induction false} SentencesClosed(lines: seq<string>)
    requires ParseLines(lines).Ok?
    ensures forall k :: 0 <= k < |ParseLines(lines).value.sentences| ==>
      Closed(ParseLines(lines).value.sentences[k])
  {
    if lines != [] {
      var init := lines[..|lines| - 1];
      StepOfLast(lines);
      SentencesClosed(init);
      var before := ParseLines(init).value;
      var after := ParseLines(lines).value;
      if Last(lines) == BlankLine {
        var s := after.sentences[|before.sentences|];
        var k := |before.buffer| - 1;
        assert Last(s) == s[k];
        assert Closed(s);
        forall j | 0 <= j < |after.sentences|
          ensures Closed(after.sentences[j])
        {
          if j < |before.sentences| {
            assert after.sentences[j] == after.sentences[..|before.sentences|][j];
          }
        }
      }
    }
  }

  lemma {:induction false} CommentsAppend(a: seq<Record>, b: seq<Record>)
    ensures Comments(a + b) == Comments(a) + Comments(b)
    decreases |b|
  {
    if b == [] {
      assert a + b == a;
    } else {
      assert (a + b)[..|a + b| - 1] == a + b[..|b| - 1];
      CommentsAppend(a, b[..|b| - 1]);
    }
  }

  lemma CommentsPush(done: seq<Record>, b: seq<Record>, rec: Record)
    ensures Comments(done + (b + [rec])) ==
      Comments(done + b) + (if rec.Comment? then [rec.text] else [])
  {
    assert done + (b + [rec]) == (done + b) + [rec];
  }

  /** Closing a sentence changes only its last record, a token, so the comments
      are those of the buffer. */
  lemma CommentsOfClosed(done: seq<Record>, b: seq<Record>, s: seq<Record>)
    requires |s| == |b| > 0
    requires s[..|b| - 1] == b[..|b| - 1]
    requires s[|b| - 1].Token? && b[|b| - 1].Token?
    ensures Comments(done + s) == Comments(done + b)
  {
    var k := |b| - 1;
    assert s == s[..k] + [s[k]] && b == b[..k] + [b[k]];
    CommentsPush(done, s[..k], s[k]);
    CommentsPush(done, b[..k], b[k]);
  }

  /** Comment lines reach the output verbatim and in input order: the comments
      among the finished sentences and the buffer are exactly the comment lines
      read so far. */
  lemma {:induction false} CommentsInOrder(lines: seq<string>)
    requires ParseLines(lines).Ok?
    ensures Comments(Flatten(ParseLines(lines).value.sentences) + ParseLines(lines).value.buffer)
         == CommentLines(lines)
  {
    if lines != [] {
      var init := lines[..|lines| - 1];
      var line := Last(lines);
      StepOfLast(lines);
      CommentsInOrder(init);
      var before := ParseLines(init).value;
      var after := ParseLines(lines).value;
      var done := Flatten(before.sentences);
      if IsComment(line) {
        assert after.buffer == before.buffer + [Comment(line)];
        CommentsPush(done, before.buffer, Comment(line));
      } else if line == BlankLine {
        var s := after.sentences[|before.sentences|];
        assert after.sentences == before.sentences + [s];
        assert Flatten(after.sentences) + after.buffer == done + s;
        CommentsOfClosed(done, before.buffer, s);
      } else {
        var rec := after.buffer[|after.buffer| - 1];
        assert after.buffer == before.buffer + [rec] && rec.Token?;
        CommentsPush(done, before.buffer, rec);
      }
    }
  }

  /** Records after the final blank line are never emitted: lines that are not
      blank change no finished sentence. */
  lemma {:induction false} TrailingRecordsDropped(lines: seq<string>, tail: seq<string>)
    requires forall j :: 0 <= j < |tail| ==> tail[j] != BlankLine
    requires ParseLines(lines + tail).Ok?
    ensures ParseLines(lines).Ok?
    ensures ParseLines(lines + tail).value.sentences == ParseLines(lines).value.sentences
    decreases |tail|
  {
    if tail == [] {
      assert lines + tail == lines;
    } else {
      var all := lines + tail;
      var shorter := tail[..|tail| - 1];
      assert all[..|all| - 1] == lines + shorter;
      StepOfLast(all);
      TrailingRecordsDropped(lines, shorter);
    }
  }
}
