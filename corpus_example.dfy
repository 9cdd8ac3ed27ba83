/** The lines of a small corpus worked through the parser, one step at a
    time, for any ids, forms and types. `ReadOutside` reads the fields
    `id form _ *` as the token `id form O` with no type open (for instance
    `1 Ion _ *` as `1 Ion O`); `ReadOpening` reads `id form _ k:t` as
    `id form B-t` and opens `t` (for instance `1 Iasi _ LOC:LOCATION` as
    `1 Iasi B-LOCATION`); `CloseStep` closes a one-token sentence at the blank
    line and keeps its misc column. */
module CorpusExample {
  import opened Strings
  import opened Conllu
  import opened Parser

  /** The type an annotation `k:t` opens is `t` when `t` holds no `:`. */
  lemma TypeAfterColon(k: string, t: string, e: string)
    requires ':' !in t && EndsAfter(k + [':'] + t, ':', e)
    ensures e == t
  {
    var a := k + [':'] + t;
    var n := |a|;
    assert forall j :: n - |t| <= j < n ==> a[j] != ':' by {
      forall j | n - |t| <= j < n ensures a[j] != ':' {
        assert a[j] == t[j - (n - |t|)];
      }
    }
    assert forall j :: n - |e| <= j < n ==> a[j] != ':' by {
      forall j | n - |e| <= j < n ensures a[j] != ':' {
        assert a[j] == a[n - |e| - 1..][j - (n - |e| - 1)] == e[j - (n - |e|)];
      }
    }
    assert a[n - |e| - 1] == a[n - |e| - 1..][0] == ':';
    assert a[n - |t| - 1] == ':';
    assert |e| == |t|;
    assert e == a[n - |e|..] == t;
  }

  lemma OpeningTag(k: string, t: string)
    requires ':' !in t
    ensures Tag(k + [':'] + t, None) == Some(Tagging("B-" + t, Some(t)))
  {
    var a := k + [':'] + t;
    assert a[|k|] == ':';
    assert a != NoAnnotation by {
      if |a| == 1 { assert a[0] == ':'; }
    }
    TypeAfterColon(k, t, Tag(a, None).value.entity.value);
  }

  /** A token annotated `*` with an empty misc column. */
  lemma ReadOutside(line: string, id: string, form: string, index: nat)
    requires Words(line) == [id, form, Placeholder, NoAnnotation]
    ensures ReadToken(line, None, index) == Ok(Annotated(Token([id, form, Outside]), None))
  {
    assert Tag(NoAnnotation, None) == Some(Tagging(Outside, None));
    Annotated3(Words(line), ReadToken(line, None, index).value, Outside, None);
  }

  /** A token annotated `k:t` with an empty misc column opens `t`. */
  lemma ReadOpening(line: string, id: string, form: string, k: string, t: string, index: nat)
    requires ':' !in t
    requires Words(line) == [id, form, Placeholder, k + [':'] + t]
    ensures ReadToken(line, None, index) ==
      Ok(Annotated(Token([id, form, "B-" + t]), Some(t)))
  {
    OpeningTag(k, t);
    Annotated3(Words(line), ReadToken(line, None, index).value, "B-" + t, Some(t));
  }

  /** The record of a four-field token line with an empty misc column. */
  lemma Annotated3(ws: seq<string>, a: Annotated, tag: string, entity: Option<string>)
    requires |ws| == 4 && ws[2] == Placeholder
    requires Tag(ws[3], None) == Some(Tagging(tag, entity))
    requires Annotates(ws, None, a)
    ensures a == Annotated(Token([ws[0], ws[1], tag]), entity)
  {
    var fs := a.record.fields;
    assert fs == fs[..2] + [fs[2]];
  }

  /** A misc column with one entry that is not `SpaceAfter=No` survives closing. */
  lemma ClosesUnchanged(m: string)
    requires '|' !in m && m != NoSpaceMarker
    ensures StripNoSpace(m) == m
  {
    SplitOfFree(m, '|');
  }

  /** A blank line after a single token whose misc column survives closing. */
  lemma CloseStep(sentences: seq<Sentence>, fields: seq<string>, entity: Option<string>,
    index: nat)
    requires fields != [] && '|' !in Last(fields) && Last(fields) != NoSpaceMarker
    ensures Step(State(sentences, [Token(fields)], entity), BlankLine, index) ==
      Ok(State(sentences + [[Token(fields)]], [], entity))
  {
    ClosesUnchanged(Last(fields));
    assert !IsComment(BlankLine);
    assert fields[..|fields| - 1] + [Last(fields)] == fields;
  }
}
