/** The records of the extended CoNLL-U corpus and the per-token rules that turn
    the corpus's entity annotation into a BIO tag inside the misc column. */
module Conllu {
  import opened Strings

  datatype Option<T> = None | Some(value: T)

  /** A record of a sentence: a comment line kept verbatim (with its line
      terminator), or the whitespace-split fields of a token line. */
  datatype Record = Comment(text: string) | Token(fields: seq<string>)

  type Sentence = seq<Record>

  /** Why a conversion stops. Every parse error names the index of the offending
      line; each stands for the exception the converter raises there. */
  datatype Error =
    | InvalidRatio            // the dev ratio lies outside [0, 1]
    | EmptyLine(line: nat)    // `line[0]` of an empty line: IndexError
    | EmptyTokenLine(line: nat)  // a whitespace-only line: `pop` from an empty list
    | UnsetEntity(line: nat)  // a continuation before any opening annotation: `"I-" + None`
    | MissingMisc(line: nat)  // a token line with only the annotation field: `tokens[-1]` of []
    | NothingToClose(line: nat)  // a blank line with an empty buffer: `tokens_list[-1]` of []
    | CommentAtClose(line: nat)  // a blank line right after a comment: item assignment on a str

  datatype Result<T> = Ok(value: T) | Err(error: Error)

  /** The BIO tag of one token and the entity type that is open after it. */
  datatype Tagging = Tagging(tag: string, entity: Option<string>)

  const Outside: string := "O"
  const NoAnnotation: string := "*"
  const Placeholder: string := "_"
  const NoSpaceMarker: string := "SpaceAfter=No"

  /** The misc column's `|`-separated entries. */
  function Entries(misc: string): seq<string> {
    SplitOn(misc, '|')
  }

  /** The BIO tag for an entity annotation, given the entity type that is open.
      `*` is outside any entity; an annotation holding `:` opens the entity type
      written after its last `:`; anything else continues the open entity, and
      there is no tag (the converter fails) when none has been opened yet. */
  function Tag(annotation: string, current: Option<string>): (r: Option<Tagging>)
    ensures r.None? <==> annotation != NoAnnotation && ':' !in annotation && current.None?
    ensures annotation == NoAnnotation ==> r == Some(Tagging(Outside, current))
    ensures annotation != NoAnnotation && ':' in annotation ==>
      r.Some? && r.value.entity.Some? &&
      EndsAfter(annotation, ':', r.value.entity.value) &&
      r.value.tag == "B-" + r.value.entity.value
    ensures annotation != NoAnnotation && ':' !in annotation && current.Some? ==>
      r == Some(Tagging("I-" + current.value, current))
  {
    if annotation == NoAnnotation then Some(Tagging(Outside, current))
    else if ':' in annotation then
      var entity := AfterLast(annotation, ':');
      Some(Tagging("B-" + entity, Some(entity)))
    else if current.Some? then Some(Tagging("I-" + current.value, current))
    else None
  }

  /** The misc column with a tag merged in: the tag becomes the misc column's
      final entries, replacing the placeholder `_` when that is all there was. */
  function MergeTag(misc: string, tag: string): (r: string)
    ensures Entries(r) == (if misc == Placeholder then [] else Entries(misc)) + Entries(tag)
  {
    if misc == Placeholder then tag
    else
      SplitAround(misc, '|', tag);
      misc + "|" + tag
  }

  /** A tag without `|` ends up as the misc column's last entry. */
  lemma MergeTagLast(misc: string, tag: string)
    requires '|' !in tag
    ensures Last(Entries(MergeTag(misc, tag))) == tag
  {
    SplitOfFree(tag, '|');
  }

  /** The entries of `es` other than `SpaceAfter=No`, in their order. */
  function WithoutNoSpace(es: seq<string>): (r: seq<string>)
    ensures NoSpaceMarker !in r
    ensures forall e :: e in r <==> e in es && e != NoSpaceMarker
    ensures multiset(r) == multiset(es)[NoSpaceMarker := 0]
    ensures NoSpaceMarker !in es ==> r == es
    ensures |r| <= |es|
  {
    if es == [] then []
    else
      assert es == [es[0]] + es[1..];
      if es[0] == NoSpaceMarker then WithoutNoSpace(es[1..])
      else [es[0]] + WithoutNoSpace(es[1..])
  }

  /** The filter keeps a single entry exactly when it is not `SpaceAfter=No`. */
  lemma WithoutNoSpaceSingle(e: string)
    ensures WithoutNoSpace([e]) == if e == NoSpaceMarker then [] else [e]
  {
    assert [e][1..] == [];
  }

  /** The first entry of `a` is filtered on its own, ahead of the rest of `a + b`. */
  lemma WithoutNoSpaceHead(a: seq<string>, b: seq<string>)
    requires a != []
    ensures WithoutNoSpace(a + b) ==
      (if a[0] == NoSpaceMarker then [] else [a[0]]) + WithoutNoSpace(a[1..] + b)
  {
    assert (a + b)[0] == a[0];
    assert (a + b)[1..] == a[1..] + b;
  }

  lemma ConcatAssoc(p: seq<string>, q: seq<string>, r: seq<string>)
    ensures p + (q + r) == (p + q) + r
  {
  }

  /** The kept entries of two lists one after the other are those of the first
      followed by those of the second. With `WithoutNoSpaceSingle` this fixes
      the order of the kept entries: the filter goes entry by entry. */
  lemma {:induction false} WithoutNoSpaceAppend(a: seq<string>, b: seq<string>)
    ensures WithoutNoSpace(a + b) == WithoutNoSpace(a) + WithoutNoSpace(b)
  {
    if a == [] {
      assert a + b == b;
    } else {
      var head := if a[0] == NoSpaceMarker then [] else [a[0]];
      WithoutNoSpaceHead(a, []);
      assert a + [] == a;
      WithoutNoSpaceHead(a, b);
      assert a[1..] + [] == a[1..];
      WithoutNoSpaceAppend(a[1..], b);
      ConcatAssoc(head, WithoutNoSpace(a[1..]), WithoutNoSpace(b));
    }
  }

  /** The misc column of a sentence's last token once the sentence closes: no
      entry is `SpaceAfter=No`; the entries are exactly the old ones without it,
      in order (an empty list joins to the empty string); and a column that had
      no such entry is left as it was. */
  function StripNoSpace(misc: string): (r: string)
    ensures NoSpaceMarker !in Entries(r)
    ensures var kept := WithoutNoSpace(Entries(misc));
      if kept == [] then r == "" else Entries(r) == kept
    ensures NoSpaceMarker !in Entries(misc) ==> r == misc
  {
    var kept := WithoutNoSpace(Entries(misc));
    JoinedEntries(misc, kept);
    JoinSplit(misc, '|');
    Join(kept, '|')
  }

  lemma JoinedEntries(misc: string, kept: seq<string>)
    requires kept == WithoutNoSpace(Entries(misc))
    ensures kept != [] ==> Entries(Join(kept, '|')) == kept
  {
    forall i | 0 <= i < |kept| ensures '|' !in kept[i] {
      assert kept[i] in Entries(misc);
    }
    if kept != [] {
      SplitJoin(kept, '|');
    }
  }

  /** Stripping twice strips nothing more. */
  lemma StripNoSpaceIdempotent(misc: string)
    ensures StripNoSpace(StripNoSpace(misc)) == StripNoSpace(misc)
  {
  }
}
