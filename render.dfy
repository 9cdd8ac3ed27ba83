/** The text `create_file_json_collubio` writes for a group of sentences: each
    comment as it was read, each token record as its fields joined by tabs and
    ended by a newline, and one empty line after every sentence. */
module Render {
  import opened Strings
  import opened Conllu

  /** One record: a comment as it was read, a token as its fields joined by
      tabs, ended by a newline; a token line without its newline splits on tabs
      back into the fields when none of them holds a tab. */
  function RenderRecord(rec: Record): (r: string)
    ensures rec.Comment? ==> r == rec.text
    ensures rec.Token? ==> r != [] && Last(r) == '\n'
    ensures (rec.Token? && rec.fields != [] &&
             forall i :: 0 <= i < |rec.fields| ==> '\t' !in rec.fields[i]) ==>
      SplitOn(r[..|r| - 1], '\t') == rec.fields
  {
    match rec
    case Comment(text) => text
    case Token(fields) =>
      var line := Join(fields, '\t');
      assert (line + "\n")[..|line|] == line;
      if fields != [] && forall i :: 0 <= i < |fields| ==> '\t' !in fields[i] then
        SplitJoin(fields, '\t');
        line + "\n"
      else
        line + "\n"
  }

  /** The records of one sentence, one after another; when the last record is a
      token the text ends with its newline, and a sentence of tokens takes at
      least one character per token. */
  function RenderRecords(rs: seq<Record>): (r: string)
    ensures rs != [] && Last(rs).Token? ==> r != [] && Last(r) == '\n'
    ensures (forall j :: 0 <= j < |rs| ==> rs[j].Token?) ==> |r| >= |rs|
  {
    if rs == [] then ""
    else
      assert |rs| > 1 ==> Last(rs) == Last(rs[1..]);
      RenderRecord(rs[0]) + RenderRecords(rs[1..])
  }

  /** A group of sentences: each sentence's records followed by a newline, so
      the text has at least one character per sentence and ends with a newline. */
  function Render(ss: seq<Sentence>): (r: string)
    ensures |r| >= |ss|
    ensures ss != [] ==> r != [] && Last(r) == '\n'
  {
    if ss == [] then "" else RenderRecords(ss[0]) + "\n" + Render(ss[1..])
  }

  /** Sentences are written independently: the text of two groups one after the
      other is the text of the first followed by that of the second. */
  lemma {:induction false} RenderAppend(a: seq<Sentence>, b: seq<Sentence>)
    ensures Render(a + b) == Render(a) + Render(b)
  {
    if a == [] {
      assert a + b == b;
    } else {
      assert (a + b)[0] == a[0];
      assert (a + b)[1..] == a[1..] + b;
      RenderAppend(a[1..], b);
    }
  }

  /** A single record is written as `RenderRecord` writes it. */
  lemma RenderRecordsSingle(rec: Record)
    ensures RenderRecords([rec]) == RenderRecord(rec)
  {
    assert [rec][1..] == [];
  }

  /** Records are written one after another: the text of two runs of records
      is the text of the first followed by that of the second. */
  lemma {:induction false} RenderRecordsAppend(a: seq<Record>, b: seq<Record>)
    ensures RenderRecords(a + b) == RenderRecords(a) + RenderRecords(b)
  {
    if a == [] {
      assert a + b == b;
    } else {
      assert (a + b)[0] == a[0];
      assert (a + b)[1..] == a[1..] + b;
      RenderRecordsAppend(a[1..], b);
    }
  }

  /** The text of a group of sentences ends with the newline written after its
      last sentence. */
  lemma {:induction false} RenderEndsSentences(ss: seq<Sentence>)
    requires ss != []
    ensures Render(ss) != "" && Last(Render(ss)) == '\n'
    ensures Render(ss) == Render(ss[..|ss| - 1]) + RenderRecords(Last(ss)) + "\n"
  {
    var init := ss[..|ss| - 1];
    assert ss == init + [Last(ss)];
    RenderAppend(init, [Last(ss)]);
    assert Render([Last(ss)]) == RenderRecords(Last(ss)) + "\n";
  }

  /** A token record whose fields are non-empty and whitespace-free is written
      as a line that splits on whitespace back into exactly those fields. */
  lemma TokenLineSplitsBack(rec: Record)
    requires rec.Token? && rec.fields != []
    requires forall i :: 0 <= i < |rec.fields| ==> rec.fields[i] != [] && SpaceFree(rec.fields[i])
    ensures Words(RenderRecord(rec)) == rec.fields
  {
    WordsOfJoined(rec.fields);
  }
}
