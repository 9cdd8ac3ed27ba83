/** The parser's token records survive being written out: every field the parser
    produces is non-empty and free of whitespace, so the line the serializer
    writes for a record splits back into the record's fields. */
module RoundTrip {
  import opened Strings
  import opened Conllu
  import opened Parser
  import opened Render

  predicate GoodFields(fs: seq<string>) {
    fs != [] && forall i :: 0 <= i < |fs| ==> fs[i] != [] && SpaceFree(fs[i])
  }

  /** A misc column some entry of which will survive closing the sentence. */
  predicate Tagged(misc: string) {
    exists k :: 0 <= k < |Entries(misc)| && Entries(misc)[k] != [] && Entries(misc)[k] != NoSpaceMarker
  }

  /** A record of the sentence being read. */
  predicate GoodPending(rec: Record) {
    rec.Token? ==> GoodFields(rec.fields) && Tagged(Last(rec.fields))
  }

  /** A record of a finished sentence. */
  predicate GoodWritten(rec: Record) {
    rec.Token? ==> GoodFields(rec.fields)
  }

  predicate GoodState(st: State) {
    && (forall k, j :: 0 <= k < |st.sentences| && 0 <= j < |st.sentences[k]| ==>
          GoodWritten(st.sentences[k][j]))
    && (forall j :: 0 <= j < |st.buffer| ==> GoodPending(st.buffer[j]))
    && (st.entity.Some? ==> SpaceFree(st.entity.value))
  }

  /** The text after the last `:` of a whitespace-free annotation is itself
      whitespace-free. */
  lemma AfterLastSpaceFree(s: string, sep: char)
    requires SpaceFree(s)
    ensures SpaceFree(AfterLast(s, sep))
  {
    var t := AfterLast(s, sep);
    if sep in s {
      forall i | 0 <= i < |t| ensures !IsSpace(t[i]) {
        assert t[i] == ([sep] + t)[i + 1] == s[|s| - |t| + i];
      }
    }
  }

  /** Tags start with `O`, `B` or `I`, contain no whitespace, and so does the
      entity type that is open afterwards. */
  lemma TagShape(annotation: string, current: Option<string>)
    requires SpaceFree(annotation)
    requires current.Some? ==> SpaceFree(current.value)
    requires Tag(annotation, current).Some?
    ensures var t := Tag(annotation, current).value;
      && t.tag != [] && t.tag[0] in {'O', 'B', 'I'} && SpaceFree(t.tag)
      && (t.entity.Some? ==> SpaceFree(t.entity.value))
  {
    if annotation != NoAnnotation && ':' in annotation {
      AfterLastSpaceFree(annotation, ':');
    }
  }

  /** Merging such a tag keeps the misc column whitespace-free and gives it an
      entry that closing the sentence will not remove. */
  lemma MergeTagGood(misc: string, tag: string)
    requires misc != [] && SpaceFree(misc)
    requires tag != [] && tag[0] in {'O', 'B', 'I'} && SpaceFree(tag)
    ensures MergeTag(misc, tag) != [] && SpaceFree(MergeTag(misc, tag))
    ensures Tagged(MergeTag(misc, tag))
  {
    var r := MergeTag(misc, tag);
    var pre := if misc == Placeholder then [] else Entries(misc);
    assert Entries(r) == pre + Entries(tag);
    SplitFirst(tag, '|');
    var e := Entries(tag)[0];
    assert e[0] != NoSpaceMarker[0];
    assert Entries(r)[|pre|] == e;
  }

  /** Closing a sentence leaves the last misc column non-empty and
      whitespace-free. */
  lemma StripGood(misc: string)
    requires SpaceFree(misc) && Tagged(misc)
    ensures StripNoSpace(misc) != [] && SpaceFree(StripNoSpace(misc))
  {
    var es := Entries(misc);
    var kept := WithoutNoSpace(es);
    var k :| 0 <= k < |es| && es[k] != [] && es[k] != NoSpaceMarker;
    assert es[k] in kept;
    var j :| 0 <= j < |kept| && kept[j] == es[k];
    JoinLength(kept, '|', j);
    SplitSpaceFree(misc, '|');
    forall i | 0 <= i < |kept| ensures SpaceFree(kept[i]) {
      assert kept[i] in es;
    }
    JoinSpaceFree(kept, '|');
  }

  lemma ReadTokenGood(line: string, current: Option<string>, index: nat)
    requires current.Some? ==> SpaceFree(current.value)
    requires ReadToken(line, current, index).Ok?
    ensures GoodPending(ReadToken(line, current, index).value.record)
    ensures var e := ReadToken(line, current, index).value.entity; e.Some? ==> SpaceFree(e.value)
  {
    var ws := Words(line);
    assert forall i :: 0 <= i < |ws| ==> ws[i] != [] && SpaceFree(ws[i]);
    AnnotatesGood(ws, current, ReadToken(line, current, index).value);
  }

  /** A record built from whitespace-free, non-empty fields as `Annotates`
      describes is good, and so is the entity it opens. */
  lemma AnnotatesGood(ws: seq<string>, current: Option<string>, a: Annotated)
    requires current.Some? ==> SpaceFree(current.value)
    requires forall i :: 0 <= i < |ws| ==> ws[i] != [] && SpaceFree(ws[i])
    requires Annotates(ws, current, a)
    ensures GoodPending(a.record)
    ensures a.entity.Some? ==> SpaceFree(a.entity.value)
  {
    var n := |ws|;
    var t := Tag(ws[n - 1], current).value;
    var misc := MergeTag(ws[n - 2], t.tag);
    var fs := a.record.fields;
    assert fs[n - 2] == misc;
    TagShape(ws[n - 1], current);
    MergeTagGood(ws[n - 2], t.tag);
    KeptFieldsGood(ws[..n - 2], fs, misc);
  }

  /** Good leading fields followed by a good misc column are good fields. */
  lemma KeptFieldsGood(ws: seq<string>, fs: seq<string>, misc: string)
    requires forall i :: 0 <= i < |ws| ==> ws[i] != [] && SpaceFree(ws[i])
    requires |fs| == |ws| + 1 && fs[..|ws|] == ws && fs[|ws|] == misc
    requires misc != [] && SpaceFree(misc)
    ensures GoodFields(fs) && Last(fs) == misc
  {
    forall i | 0 <= i < |fs| ensures fs[i] != [] && SpaceFree(fs[i]) {
      if i < |ws| {
        assert fs[i] == fs[..|ws|][i];
      }
    }
  }

  lemma CloseGood(st: State, index: nat)
    requires GoodState(st)
    requires Close(st, index).Ok?
    ensures GoodState(Close(st, index).value)
  {
    var after := Close(st, index).value;
    var b := st.buffer;
    var k := |b| - 1;
    var s := after.sentences[|st.sentences|];
    var fs, gs := b[k].fields, s[k].fields;
    assert GoodPending(b[k]);
    StripGood(Last(fs));
    forall i | 0 <= i < |gs| ensures gs[i] != [] && SpaceFree(gs[i]) {
      if i < |gs| - 1 {
        assert gs[i] == gs[..|fs| - 1][i] == fs[i];
      }
    }
    forall m, j | 0 <= m < |after.sentences| && 0 <= j < |after.sentences[m]|
      ensures GoodWritten(after.sentences[m][j])
    {
      if m < |st.sentences| {
        assert after.sentences[m] == after.sentences[..|st.sentences|][m];
      } else if j < k {
        assert s[j] == s[..k][j] == b[j];
        assert GoodPending(b[j]);
      }
    }
  }

  /** Records appended to the buffer keep the state well formed. */
  lemma PushGood(st: State, rec: Record, entity: Option<string>)
    requires GoodState(st) && GoodPending(rec)
    requires entity.Some? ==> SpaceFree(entity.value)
    ensures GoodState(State(st.sentences, st.buffer + [rec], entity))
  {
    var b := st.buffer + [rec];
    forall j | 0 <= j < |b| ensures GoodPending(b[j]) {
      if j < |st.buffer| {
        assert b[j] == st.buffer[j];
      }
    }
  }

  /** Each line keeps the parser's state well formed. */
  lemma StepGood(st: State, line: string, index: nat)
    requires GoodState(st)
    requires Step(st, line, index).Ok?
    ensures GoodState(Step(st, line, index).value)
  {
    if IsComment(line) {
      PushGood(st, Comment(line), st.entity);
    } else if line == BlankLine {
      CloseGood(st, index);
    } else {
      ReadTokenGood(line, st.entity, index);
      var a := ReadToken(line, st.entity, index).value;
      PushGood(st, a.record, a.entity);
    }
  }

  /** Every state the parser reaches is well formed. */
  lemma {:induction false} ParsedStatesGood(lines: seq<string>)
    requires ParseLines(lines).Ok?
    ensures GoodState(ParseLines(lines).value)
  {
    if lines != [] {
      var init := lines[..|lines| - 1];
      assert ParseLines(init).Ok?;
      ParsedStatesGood(init);
      StepGood(ParseLines(init).value, Last(lines), |lines| - 1);
    }
  }

  /** The serializer and the parser agree: each token record the parser returns
      is written as a line whose whitespace-split fields are that record's
      fields. */
  lemma ParsedTokensSplitBack(lines: seq<string>)
    requires Parse(lines).Ok?
    ensures var ss := Parse(lines).value;
      forall k, j :: 0 <= k < |ss| && 0 <= j < |ss[k]| && ss[k][j].Token? ==>
        Words(RenderRecord(ss[k][j])) == ss[k][j].fields
  {
    ParsedStatesGood(lines);
    var ss: seq<Sentence> := Parse(lines).value;
    forall k, j | 0 <= k < |ss| && 0 <= j < |ss[k]| && ss[k][j].Token?
      ensures Words(RenderRecord(ss[k][j])) == ss[k][j].fields
    {
      assert GoodWritten(ss[k][j]);
      TokenLineSplitsBack(ss[k][j]);
    }
  }
}
