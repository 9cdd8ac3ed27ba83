# RONEC CoNLL-U to CoNLL-U BIO converter, modelled in Dafny

`spacy/train-local-model/convert_conllubio.py` converts the Romanian Named Entity
Corpus from its extended CoNLL-U form into CoNLL-U with BIO entity tags. It then
cuts the shuffled sentences into a training part and a development part and
writes each part out. This project models the three parts of that script that
carry logic.

- **Parser** (`extract_sentences_from_file`). The parser reads the corpus one
  line at a time:
  - a line starting with `#` is kept verbatim as a comment record;
  - the line `"\n"` closes the current sentence and drops every `SpaceAfter=No`
    entry from the misc column of its last token;
  - any other line is split on whitespace. Its last field, the entity
    annotation, is removed and turned into a BIO tag (`*` gives `O`, `x:T` gives
    `B-T` and opens `T`, anything else gives `I-` plus the open type). The tag is
    merged into the misc column, the field that is now last.

  The open entity type is carried across token lines and across sentences. The
  parser is an imperative method (`Parser.ExtractSentences`, with the token-line
  body in `Parser.TokenLine`). It is proved equal to a line-by-line fold
  (`Parser.ParseLines`), and the fold's properties are proved as lemmas
  (`ParserFacts`, `RoundTrip`).
- **Split** (the script's main block). A dev ratio outside [0, 1] is rejected
  before anything is read. Otherwise the parsed sentences are shuffled, and the
  first `int((1 - r) * n)` of them are for training and the rest for
  development (`Splitter`).
- **Serializer** (`create_file_json_collubio`). It writes each comment as read,
  each token as its fields joined by tabs plus a newline, and a newline after
  every sentence (`Render`).

Every way the script can crash on bad input is an error value of
`Conllu.Result`, carrying the index of the offending line. Each such value
stands for the exception the script raises at that point:
- an empty line (`IndexError` from `line[0]`);
- a whitespace-only line (`pop` from an empty list);
- a continuation annotation before any opening one (`"I-" + None`);
- a token line with nothing but the annotation (`tokens[-1]` of an empty list);
- a blank line with nothing to close (`tokens_list[-1]` of an empty list);
- a blank line right after a comment (item assignment on a `str`).

Python's `str.split()` is modelled with exactly the characters `str.isspace()`
accepts. `str.split(sep)`, `s.split(sep)[-1]` and `sep.join` are written out
character by character (`Strings`).

The open entity type is kept until the next opening annotation (lines 60 and
84–88), also across `O` tokens and across sentence boundaries, so a continuation
annotation after an `O` token or in a later sentence continues the old type.
`Parser.Close` states that a blank line leaves the open entity unchanged.

## Model

| member | source | states |
|---|---|---|
| Strings.Words | spacy/train-local-model/convert_conllubio.py:77 | every field of `line.split()` is non-empty and holds no whitespace |
| Strings.WordsCons | spacy/train-local-model/convert_conllubio.py:77 | a whitespace-free word followed by whitespace or by the end of the line is split off whole, and splitting goes on after it; with `WordsSkip` and `WordsOfBlank` this fixes `line.split()` on every line |
| Strings.WordsSkip | spacy/train-local-model/convert_conllubio.py:77 | leading whitespace is skipped |
| Strings.WordsOfBlank | spacy/train-local-model/convert_conllubio.py:77 | a line of whitespace only has no fields |
| Strings.WordsOfWord | spacy/train-local-model/convert_conllubio.py:77 | a whitespace-free word with nothing after it (the last line of a file without a final newline) is one field, never split |
| Strings.WordsKeepText | spacy/train-local-model/convert_conllubio.py:77 | the fields of `line.split()` concatenated are the line with its whitespace removed: no non-space character is lost, added or reordered |
| Strings.AfterLast | spacy/train-local-model/convert_conllubio.py:85 | `s.split(":")[-1]` is `s` itself when there is no `:`, and otherwise the `:`-free text that `s` ends with right after its last `:` |
| Strings.SplitOn | spacy/train-local-model/convert_conllubio.py:70 | `s.split(sep)` gives at least one piece, and no piece holds `sep` |
| Strings.Join | spacy/train-local-model/convert_conllubio.py:71 | every character of `sep.join(parts)` is `sep` or comes from one of the parts |
| Strings.JoinSplit | spacy/train-local-model/convert_conllubio.py:70-71 | joining the pieces of `s.split("|")` with `|` gives back `s` |
| Strings.SplitJoin | spacy/train-local-model/convert_conllubio.py:70-71 | a non-empty list of `|`-free entries survives `"|".join` followed by `split("|")` |
| Strings.SplitAround | spacy/train-local-model/convert_conllubio.py:93 | the `|`-pieces of `a + "|" + b` are those of `a` followed by those of `b` |
| Strings.WordsOfJoined | spacy/train-local-model/convert_conllubio.py:40 | a non-empty list of non-empty, whitespace-free fields joined by tabs plus a newline splits on whitespace back into exactly those fields |
| Conllu.Tag | spacy/train-local-model/convert_conllubio.py:82-88 | `*` gives `O` and keeps the open entity; an annotation holding `:` gives `B-` plus the text after its last `:` and opens that type; anything else gives `I-` plus the open type and keeps it; there is no tag exactly when a continuation comes with no type open |
| Conllu.MergeTag | spacy/train-local-model/convert_conllubio.py:90-93 | the merged misc column's entries are the old entries (none when it was `_`) followed by the tag's |
| Conllu.MergeTagLast | spacy/train-local-model/convert_conllubio.py:90-93 | a tag without `|` becomes the misc column's last entry |
| Conllu.WithoutNoSpace | spacy/train-local-model/convert_conllubio.py:71 | the filtered entries hold every entry other than `SpaceAfter=No` exactly as often as the input does, and no `SpaceAfter=No`; the input comes back unchanged when it held no marker |
| Conllu.WithoutNoSpaceAppend | spacy/train-local-model/convert_conllubio.py:71 | the filter works entry by entry: filtering a concatenation filters each part and keeps their order |
| Conllu.WithoutNoSpaceSingle | spacy/train-local-model/convert_conllubio.py:71 | a single entry is dropped exactly when it is `SpaceAfter=No` and kept otherwise |
| Conllu.StripNoSpace | spacy/train-local-model/convert_conllubio.py:70-72 | after closing, the last misc column has no `SpaceAfter=No` entry; its entries are exactly the old ones without the marker, in order (or it is empty when none remain); a column without the marker is unchanged |
| Conllu.StripNoSpaceIdempotent | spacy/train-local-model/convert_conllubio.py:70-72 | stripping an already stripped misc column changes nothing |
| Parser.ReadToken | spacy/train-local-model/convert_conllubio.py:77-95 | (through `Parser.Annotates`) a token line fails as the script does (whitespace-only line, continuation with no open type, no misc column), and succeeds exactly when it has at least two fields and its annotation yields a tag; on success the record has one field fewer than the split line, all fields before the misc column are unchanged, and the misc column is the tag (when it was `_`) or the old value plus `|` plus the tag; the open entity becomes the tag's |
| Parser.TokenLine | spacy/train-local-model/convert_conllubio.py:77-95 | the imperative token-line body (pop, tag choice, in-place misc update) computes exactly `ReadToken` |
| Parser.Close | spacy/train-local-model/convert_conllubio.py:69-74 | a blank line fails on an empty buffer or a comment as last record, and succeeds exactly when the last record is a token with at least one field; then the buffer becomes one more sentence: the earlier sentences, the other records and the last record's other fields are unchanged, its misc column is stripped of `SpaceAfter=No`, the buffer is emptied and the open entity is kept |
| Parser.Step | spacy/train-local-model/convert_conllubio.py:64-95 | one line: a failure names that line; a comment line never fails, is appended to the buffer verbatim and leaves the open entity as it was; a blank line is exactly `Close` (failing on an empty buffer or a trailing comment, otherwise appending the buffer with its last misc column stripped as one more sentence, emptying the buffer and keeping the open entity); a token line succeeds exactly when `ReadToken` does, and then appends exactly `ReadToken`'s record and takes its open entity; earlier sentences and records are never changed |
| Parser.ParseLines | spacy/train-local-model/convert_conllubio.py:64-97 | a failure names one of the lines read, and there are never more sentences than lines |
| Parser.Parse | spacy/train-local-model/convert_conllubio.py:55-97 | a failure names one of the lines read, and at most one sentence per line is returned |
| Parser.ExtractSentences | spacy/train-local-model/convert_conllubio.py:55-97 | the parsing loop returns exactly the sentences of the line-by-line fold, or its first error |
| Parser.ErrorIsFinal | spacy/train-local-model/convert_conllubio.py:64-97 | once a prefix of the corpus fails, the whole corpus fails with the same error: the script stops at the first bad line |
| ParserFacts.OneSentencePerBlankLine | spacy/train-local-model/convert_conllubio.py:64-74 | the parser returns exactly one sentence per blank line, and the buffer is empty right after a blank line |
| ParserFacts.SentencesClosed | spacy/train-local-model/convert_conllubio.py:69-73 | every returned sentence ends with a token whose misc column has no `SpaceAfter=No` entry |
| ParserFacts.CommentsInOrder | spacy/train-local-model/convert_conllubio.py:66-67 | the comments among the finished sentences and the buffer are exactly the comment lines read, verbatim and in order |
| ParserFacts.TrailingRecordsDropped | spacy/train-local-model/convert_conllubio.py:64-97 | lines after the last blank line change no returned sentence, so records after the final blank line are never returned |
| Splitter.TrainCount | spacy/train-local-model/convert_conllubio.py:122 | the training count never exceeds the number of sentences |
| Splitter.TrainCountIsFloor | spacy/train-local-model/convert_conllubio.py:122 | the training count is the floor of `(1 - r) * n`: the largest `k` with `k <= (1 - r) * n` |
| Splitter.Split | spacy/train-local-model/convert_conllubio.py:121-126 | the split fails exactly when the ratio is outside [0, 1]; otherwise training followed by development is the input, training holds `TrainCount` items, and together they hold each item as often as the input |
| Splitter.DevCountIsCeiling | spacy/train-local-model/convert_conllubio.py:122-123 | the development count is the ceiling of `r * n` |
| Splitter.SplitExtremes | spacy/train-local-model/convert_conllubio.py:122-126 | ratio 0 puts every sentence in training, ratio 1 every sentence in development |
| Splitter.TrainCountMonotone | spacy/train-local-model/convert_conllubio.py:122 | a larger dev ratio never leaves more sentences for training |
| Splitter.Convert | spacy/train-local-model/convert_conllubio.py:113-126 | an invalid ratio is rejected before the corpus is parsed; a parse error is the result's error; otherwise training followed by development is the shuffled corpus |
| Splitter.ConvertPartitions | spacy/train-local-model/convert_conllubio.py:118-126 | with a shuffle that only reorders, training and development hold every parsed sentence exactly once, their sizes add up to the corpus size, and training holds `TrainCount` sentences |
| Render.RenderRecord | spacy/train-local-model/convert_conllubio.py:37-40 | a comment is written as read; a token is written as a line ended by a newline which, without the newline, splits on tabs back into exactly the record's fields when there is at least one and none holds a tab |
| Render.RenderRecords | spacy/train-local-model/convert_conllubio.py:36-40 | records whose last one is a token end with a newline, and tokens alone take at least one character each |
| Render.RenderRecordsSingle | spacy/train-local-model/convert_conllubio.py:37-40 | a single record is written exactly as `RenderRecord` writes it; with `RenderRecordsAppend` a sentence's text is its records' texts one after another |
| Render.RenderRecordsAppend | spacy/train-local-model/convert_conllubio.py:36-40 | the records of a sentence are written one after another, in order: the text of two runs of records is the text of the first followed by that of the second |
| Render.Render | spacy/train-local-model/convert_conllubio.py:35-42 | the text has at least one character per sentence and, when there is a sentence, ends with the newline written after the last one |
| Render.RenderAppend | spacy/train-local-model/convert_conllubio.py:35-42 | the text of two groups of sentences is the text of the first followed by that of the second |
| Render.RenderEndsSentences | spacy/train-local-model/convert_conllubio.py:35-42 | the text of a non-empty group ends with a newline, and it is the text of all but the last sentence, then the last sentence's records, then a newline |
| Render.TokenLineSplitsBack | spacy/train-local-model/convert_conllubio.py:40 | a token record of non-empty, whitespace-free fields is written as a line that splits on whitespace back into exactly those fields |
| CorpusExample.TypeAfterColon | spacy/train-local-model/convert_conllubio.py:85 | the type an annotation `k:t` opens is `t` whenever `t` holds no `:` |
| CorpusExample.OpeningTag | spacy/train-local-model/convert_conllubio.py:84-86 | with no type open, `k:t` gives the tag `B-t` and opens `t` |
| CorpusExample.ReadOutside | spacy/train-local-model/convert_conllubio.py:77-95 | a line of fields `id form _ *` is the token `id form O`, with no type open afterwards |
| CorpusExample.ReadOpening | spacy/train-local-model/convert_conllubio.py:77-95 | a line of fields `id form _ k:t` is the token `id form B-t`, and `t` is open afterwards |
| CorpusExample.ClosesUnchanged | spacy/train-local-model/convert_conllubio.py:70-72 | a misc column with one entry that is not `SpaceAfter=No` is unchanged by closing |
| CorpusExample.CloseStep | spacy/train-local-model/convert_conllubio.py:69-74 | a blank line after a one-token buffer whose misc column is such an entry appends exactly that one-token sentence, empties the buffer and keeps the open type |
| RoundTrip.TagShape | spacy/train-local-model/convert_conllubio.py:82-88 | a tag starts with `O`, `B` or `I` and, like the type it opens, holds no whitespace when the annotation holds none |
| RoundTrip.MergeTagGood | spacy/train-local-model/convert_conllubio.py:90-93 | merging such a tag leaves a non-empty, whitespace-free misc column with an entry that is not `SpaceAfter=No` |
| RoundTrip.StripGood | spacy/train-local-model/convert_conllubio.py:70-71 | stripping such a misc column leaves it non-empty and whitespace-free |
| RoundTrip.ReadTokenGood | spacy/train-local-model/convert_conllubio.py:77-95 | a token record's fields are non-empty and whitespace-free and its misc column keeps an entry that closing will not remove |
| RoundTrip.CloseGood | spacy/train-local-model/convert_conllubio.py:69-74 | closing a sentence keeps every field of every record non-empty and whitespace-free |
| RoundTrip.ParsedStatesGood | spacy/train-local-model/convert_conllubio.py:55-97 | every state the parser reaches has only non-empty, whitespace-free token fields and a whitespace-free open entity type |
| RoundTrip.ParsedTokensSplitBack | spacy/train-local-model/convert_conllubio.py:40 | every token record the parser returns is written by the serializer as a line that splits on whitespace back into that record's fields |

## Left out

- Command-line parsing, directory creation, opening and writing the output files,
  and the progress messages (lines 30–34, 101–111, 129–135) are I/O. `Render.Render`
  is the text one call of `create_file_json_collubio` would write.
- Reading the corpus file is I/O. The parser takes the corpus as its sequence of
  lines, each with its line terminator, as Python's text-mode iteration yields
  them; newline translation is not modelled.
- `random.shuffle` (line 118) is a parameter of `Splitter.Convert`. Only its
  reordering property is used, as a premise of `Splitter.ConvertPartitions`.
- The dev ratio is a float in the script. The model takes an exact fraction
  `num / den`, so float rounding in `(1 - dev_ratio) * num_sentences` is not
  modelled, nor is a NaN ratio, which passes the range check.
- The exceptions the script raises on malformed input are error values naming
  the line index. The exception types and messages are not modelled.
- In-place updates of `tokens[-1]` and `tokens_list[-1][-1]` are reassignments of
  sequence values, so aliasing between the names bound to these lists (for
  instance the loop variable `tokens` and the buffer's last record) is not
  captured.
- Re-running the parser on its own output is not modelled: that output has no
  annotation column. `RoundTrip.ParsedTokensSplitBack` states what survives
  instead: each written token line splits back into the record's fields.
- Unused imports of `subprocess`, `re`, `sys` and `ntpath` (lines 12, 14–16) and the docstring's mention of JSON and
  evaluation files (lines 3–4) describe nothing the code does.
