/** The sentence parser of `extract_sentences_from_file`: it reads the corpus one
    line at a time, keeps comment lines, turns token lines into records whose misc
    column carries a BIO tag, and closes a sentence at every blank line. The one
    piece of state that crosses lines, and sentences, is the open entity type. */
module Parser {
  import opened Strings
  import opened Conllu

  /** Everything the parser carries from one line to the next: the finished
      sentences, the records of the sentence being read, and the open entity. */
  datatype State = State(sentences: seq<Sentence>, buffer: seq<Record>, entity: Option<string>)

  const Start: State := State([], [], None)

  /** The record a token line becomes and the entity type open after it. */
  datatype Annotated = Annotated(record: Record, entity: Option<string>)

  /** `a` is what a token line split into the fields `ws` becomes when `current`
      is the open entity: the annotation `ws[n - 1]` has a tag, the record is a
      token with one field fewer than the line, every field before the misc
      column is kept, the misc column `ws[n - 2]` is replaced by the tag when it
      is `_` and otherwise gets `|` and the tag appended, and the open entity
      becomes the tag's. */
  predicate Annotates(ws: seq<string>, current: Option<string>, a: Annotated) {
    var n := |ws|;
    && n >= 2
    && Tag(ws[n - 1], current).Some?
    && var t := Tag(ws[n - 1], current).value;
    && a.record.Token?
    && |a.record.fields| == n - 1
    && a.record.fields[..n - 2] == ws[..n - 2]
    && a.record.fields[n - 2] == (if ws[n - 2] == Placeholder then t.tag else ws[n - 2] + "|" + t.tag)
    && a.entity == t.entity
  }

  /** A token line: its last whitespace-separated field is the entity annotation,
      which is removed and turned into a BIO tag that is merged into the field
      before it, the misc column. All other fields are kept as they are. */
  function ReadToken(line: string, current: Option<string>, index: nat): (r: Result<Annotated>)
    ensures Words(line) == [] ==> r == Err(EmptyTokenLine(index))
    ensures Words(line) != [] && Tag(Last(Words(line)), current).None? ==>
      r == Err(UnsetEntity(index))
    ensures |Words(line)| == 1 && Tag(Last(Words(line)), current).Some? ==>
      r == Err(MissingMisc(index))
    ensures r.Ok? <==> |Words(line)| >= 2 && Tag(Last(Words(line)), current).Some?
    ensures r.Ok? ==> Annotates(Words(line), current, r.value)
  {
    var ws := Words(line);
    if ws == [] then Err(EmptyTokenLine(index))
    else
      var fields := ws[..|ws| - 1];
      match Tag(Last(ws), current)
      case None => Err(UnsetEntity(index))
      case Some(t) =>
        if fields == [] then Err(MissingMisc(index))
        else
          var a := Annotated(Token(fields[..|fields| - 1] + [MergeTag(Last(fields), t.tag)]), t.entity);
          AnnotatesToken(ws, current, a);
          Ok(a)
  }

  /** The token `ReadToken` builds satisfies `Annotates`. */
  lemma AnnotatesToken(ws: seq<string>, current: Option<string>, a: Annotated)
    requires |ws| >= 2 && Tag(Last(ws), current).Some?
    requires var t := Tag(Last(ws), current).value;
      a == Annotated(Token(ws[..|ws| - 1][..|ws| - 2] + [MergeTag(ws[|ws| - 2], t.tag)]), t.entity)
    ensures Annotates(ws, current, a)
  {
    var n := |ws|;
    var fs := a.record.fields;
    assert fs[..n - 2] == ws[..n - 2];
  }

  /** A blank line: the last record of the buffer, which must be a token, has
      every `SpaceAfter=No` entry removed from its misc column; the buffer becomes
      the next sentence and is emptied. The open entity is kept. */
  function Close(st: State, index: nat): (r: Result<State>)
    ensures st.buffer == [] ==> r == Err(NothingToClose(index))
    ensures st.buffer != [] && Last(st.buffer).Comment? ==> r == Err(CommentAtClose(index))
    ensures st.buffer != [] && Last(st.buffer).Token? && Last(st.buffer).fields == [] ==>
      r == Err(MissingMisc(index))
    ensures r.Ok? <==> st.buffer != [] && Last(st.buffer).Token? && Last(st.buffer).fields != []
    ensures r.Ok? ==>
      && r.value.buffer == []
      && r.value.entity == st.entity
      && |r.value.sentences| == |st.sentences| + 1
      && r.value.sentences[..|st.sentences|] == st.sentences
    ensures r.Ok? ==>
      var b := st.buffer;
      var k := |b| - 1;
      var s := r.value.sentences[|st.sentences|];
      && |s| == |b|
      && s[..k] == b[..k]
      && s[k].Token?
      && |s[k].fields| == |b[k].fields|
      && s[k].fields[..|b[k].fields| - 1] == b[k].fields[..|b[k].fields| - 1]
      && Last(s[k].fields) == StripNoSpace(Last(b[k].fields))
  {
    if st.buffer == [] then Err(NothingToClose(index))
    else
      match Last(st.buffer)
      case Comment(_) => Err(CommentAtClose(index))
      case Token(fields) =>
        // Unreachable from `ParseLines`: every token record `ReadToken` builds has
        // at least one field (`RoundTrip.ParsedStatesGood`).
        if fields == [] then Err(MissingMisc(index))
        else
          var last := Token(fields[..|fields| - 1] + [StripNoSpace(Last(fields))]);
          var sentence := st.buffer[..|st.buffer| - 1] + [last];
          var after := State(st.sentences + [sentence], [], st.entity);
          ClosedShape(st, after);
          Ok(after)
  }

  /** The state `Close` builds from a buffer ending in a token. */
  lemma ClosedShape(st: State, after: State)
    requires st.buffer != [] && Last(st.buffer).Token? && Last(st.buffer).fields != []
    requires var fields := Last(st.buffer).fields;
      var last := Token(fields[..|fields| - 1] + [StripNoSpace(Last(fields))]);
      after == State(st.sentences + [st.buffer[..|st.buffer| - 1] + [last]], [], st.entity)
    ensures
      && after.buffer == []
      && after.entity == st.entity
      && |after.sentences| == |st.sentences| + 1
      && after.sentences[..|st.sentences|] == st.sentences
    ensures
      var b := st.buffer;
      var k := |b| - 1;
      var s := after.sentences[|st.sentences|];
      && |s| == |b|
      && s[..k] == b[..k]
      && s[k].Token?
      && |s[k].fields| == |b[k].fields|
      && s[k].fields[..|b[k].fields| - 1] == b[k].fields[..|b[k].fields| - 1]
      && Last(s[k].fields) == StripNoSpace(Last(b[k].fields))
  {
    var b := st.buffer;
    var k := |b| - 1;
    var s := after.sentences[|st.sentences|];
    assert s == b[..k] + [s[k]];
    assert s[..k] == b[..k];
  }

  predicate IsComment(line: string) {
    line != [] && line[0] == '#'
  }

  const BlankLine: string := "\n"

  /** One line of input. A line starting with `#` is a comment even before the
      blank-line test; an empty line cannot be classified at all. A failure names
      this line. Finished sentences are never changed: a blank line adds one and
      empties the buffer, any other line adds one record to the buffer: the
      comment itself, or the token `ReadToken` reads, which also sets the open
      entity. A comment leaves the open entity as it was. */
  function Step(st: State, line: string, index: nat): (r: Result<State>)
    ensures r.Err? ==> r.error != InvalidRatio && r.error.line == index
    ensures IsComment(line) ==> r.Ok?
    ensures r.Ok? ==>
      && |r.value.sentences| == |st.sentences| + (if line == BlankLine then 1 else 0)
      && r.value.sentences[..|st.sentences|] == st.sentences
    ensures r.Ok? && line == BlankLine ==> r.value.buffer == [] && r.value.entity == st.entity
    ensures line == BlankLine ==> r == Close(st, index)
    ensures r.Ok? && line != BlankLine ==>
      && |r.value.buffer| == |st.buffer| + 1
      && r.value.buffer[..|st.buffer|] == st.buffer
    ensures IsComment(line) ==> r == Ok(st.(buffer := st.buffer + [Comment(line)]))
    ensures line != [] && !IsComment(line) && line != BlankLine ==>
      var a := ReadToken(line, st.entity, index);
      && (r.Ok? <==> a.Ok?)
      && (r.Ok? ==> r.value.buffer == st.buffer + [a.value.record] && r.value.entity == a.value.entity)
  {
    assert !IsComment(BlankLine);
    if line == [] then Err(EmptyLine(index))
    else if IsComment(line) then Ok(st.(buffer := st.buffer + [Comment(line)]))
    else if line == BlankLine then Close(st, index)
    else
      match ReadToken(line, st.entity, index)
      case Err(e) => Err(e)
      case Ok(a) => Ok(st.(buffer := st.buffer + [a.record], entity := a.entity))
  }

  /** The parser's state after the given lines, or the first error, which names
      one of the given lines. There are never more sentences than lines. */
  function ParseLines(lines: seq<string>): (r: Result<State>)
    ensures r.Err? ==> r.error != InvalidRatio && r.error.line < |lines|
    ensures r.Ok? ==> |r.value.sentences| <= |lines|
  {
    if lines == [] then Ok(Start)
    else
      match ParseLines(lines[..|lines| - 1])
      case Err(e) => Err(e)
      case Ok(st) => Step(st, Last(lines), |lines| - 1)
  }

  /** The sentences of a corpus; records after the last blank line are dropped. */
  function Parse(lines: seq<string>): (r: Result<seq<Sentence>>)
    ensures r.Err? ==> r.error != InvalidRatio && r.error.line < |lines|
    ensures r.Ok? ==> |r.value| <= |lines|
  {
    match ParseLines(lines)
    case Err(e) => Err(e)
    case Ok(st) => Ok(st.sentences)
  }

  /** The parser itself: a loop over the lines with the finished sentences, the
      current sentence's records and the open entity as its variables. */
  method ExtractSentences(lines: seq<string>) returns (r: Result<seq<Sentence>>)
    ensures r == Parse(lines)
  {
    var sentences: seq<Sentence> := [];
    var oldEntity: Option<string> := None;
    var tokensList: seq<Record> := [];
    for i := 0 to |lines|
      invariant ParseLines(lines[..i]) == Ok(State(sentences, tokensList, oldEntity))
    {
      var line := lines[i];
      ghost var before := State(sentences, tokensList, oldEntity);
      assert ParseLines(lines[..i + 1]) == Step(before, line, i) by {
        assert lines[..i + 1][..i] == lines[..i];
      }
      if line == [] {
        ErrorIsFinal(lines, i + 1);
        return Err(EmptyLine(i));
      }
      if line[0] == '#' {
        tokensList := tokensList + [Comment(line)];
        assert Step(before, line, i) == Ok(State(sentences, tokensList, oldEntity));
      } else if line == BlankLine {
        if tokensList == [] {
          ErrorIsFinal(lines, i + 1);
          return Err(NothingToClose(i));
        }
        var last := tokensList[|tokensList| - 1];
        if last.Comment? || last.fields == [] {
          ErrorIsFinal(lines, i + 1);
          return Err(if last.Comment? then CommentAtClose(i) else MissingMisc(i));
        }
        var fields := last.fields;
        fields := fields[..|fields| - 1] + [StripNoSpace(fields[|fields| - 1])];
        tokensList := tokensList[..|tokensList| - 1] + [Token(fields)];
        sentences := sentences + [tokensList];
        tokensList := [];
        assert Step(before, line, i) == Close(before, i);
      } else {
        var a := TokenLine(line, oldEntity, i);
        if a.Err? {
          ErrorIsFinal(lines, i + 1);
          return Err(a.error);
        }
        tokensList := tokensList + [a.value.record];
        oldEntity := a.value.entity;
      }
    }
    assert lines[..|lines|] == lines;
    return Ok(sentences);
  }

  /** One token line, as the loop body handles it: split the line, pop the
      annotation, choose the tag (updating the open entity on `B-`), and merge
      the tag into the misc column. */
  method TokenLine(line: string, oldEntity: Option<string>, i: nat) returns (r: Result<Annotated>)
    ensures r == ReadToken(line, oldEntity, i)
  {
    var tokens := Words(line);
    if tokens == [] {
      return Err(EmptyTokenLine(i));
    }
    var entity := tokens[|tokens| - 1];
    tokens := tokens[..|tokens| - 1];
    var iobTag: string;
    var newEntity := oldEntity;
    if entity == NoAnnotation {
      iobTag := Outside;
    } else if ':' in entity {
      newEntity := Some(AfterLast(entity, ':'));
      iobTag := "B-" + newEntity.value;
    } else {
      if oldEntity.None? {
        return Err(UnsetEntity(i));
      }
      iobTag := "I-" + oldEntity.value;
    }
    assert Tag(entity, oldEntity) == Some(Tagging(iobTag, newEntity));
    if tokens == [] {
      return Err(MissingMisc(i));
    }
    if tokens[|tokens| - 1] == Placeholder {
      tokens := tokens[..|tokens| - 1] + [iobTag];
    } else {
      tokens := tokens[..|tokens| - 1] + [tokens[|tokens| - 1] + "|" + iobTag];
    }
    return Ok(Annotated(Token(tokens), newEntity));
  }

  /** A parse that has failed stays failed with the same error: the converter
      stops at the first bad line. */
  lemma {:induction false} ErrorIsFinal(lines: seq<string>, k: nat)
    requires k <= |lines|
    requires ParseLines(lines[..k]).Err?
    ensures ParseLines(lines) == ParseLines(lines[..k])
    decreases |lines|
  {
    if k < |lines| {
      var init := lines[..|lines| - 1];
      assert init[..k] == lines[..k];
      ErrorIsFinal(init, k);
    } else {
      assert lines[..k] == lines;
    }
  }
}
