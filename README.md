# libpathcomp in Dafny

libpathcomp composes pathnames. A *composer* has a name and a list of
*attributes*. Each attribute has a name and one or more alternative
*values*. A value is literal text, or Lua code written as `lua { ... }`,
which is evaluated with the composer as its argument. The path of the
current combination joins the values of `root` and `compose`: a non-empty
root and a slash, then a non-empty compose. An empty or unknown root gives
the compose value alone, and when both are empty or unknown there is no
path. The composer walks the combinations like the digits of a
counter, the first attribute turning fastest. `pathcomp_find` returns the
first combination whose path exists. `pathcomp_mkdir` creates the
directories leading to the current path. Attributes come from
INI-style configuration sections named like the composer, and from
`key=value` / `key+=value` arguments on the command line.

This project models that core in Dafny and proves what it does:

- `Buffers` (buf.c): the growable byte buffer, as a class over an `array`
  with `len`, `alloc` and a read position `pos`. That covers appending,
  trimming, splicing, detaching, and the `fgetc`/`ungetc` reading used by
  the parser. The `GROW_N` growth rule is exact.
- `Lists` (list.c): the singly linked list, as a class of nodes with
  footprints. It covers push at the tail, length, traversal, first match
  and unlinking.
- `Values` (value.c): the classification of text as a literal or as Lua
  code, and the evaluation of a value.
- `Atts` (att.c): an attribute as a class with a name, a sequence of
  alternatives and a cursor.
- `Configs` and `ConfigLaws` (cf.c):
  - the parser, on buffers, proved against a functional parser `Parse`;
  - laws about `Parse`: a configuration printed in its plain form parses
    back to itself; a failing parse keeps what it has read; entries before
    the first header are dropped; comment lines and blanks change nothing.
- `Odometer` and `ComposerStates` (pathcomp.c):
  - The composer's enumeration as a mixed-radix counter, and every
    composer operation as a function on a value snapshot.
  - The laws about those functions:
    - `pathcomp_next` visits every combination once, in order, and sets
      `done` after the last;
    - `pathcomp_find` stops at the first combination whose path exists;
    - building from the configuration gives every key exactly the values
      of the matching sections, in file order;
    - `pathcomp_mkdir` hands over exactly the prefixes that end in a
      component followed by a slash, shortest first.
- `Composers` (pathcomp.c): the composer as a class over `Attribute`
  objects. Each method is proved to follow its function in
  `ComposerStates`.
- `Standalone` (standalone.c): reading of a command-line attribute
  argument, and its effect on the composer.

Several dependencies are parameters of the model:

- the Lua interpreter: a function from a chunk and a snapshot of the
  composer to an optional string;
- `stat(2)`: a predicate on paths;
- `mkdir(2)`: a function from a path to an outcome (made, already there,
  refused);
- the global configuration: `Configs.Config?`, where null means no
  configuration is loaded.

Characters are signed bytes, as on the usual x86-64 ABI. A byte of 0x80 or
above therefore reads back from `buf_fgetc` as a negative number, like EOF,
and the parser's `ch < 0` tests treat it in three ways:

- in the main loop of `cf_parse_text` (src/cf.c:190) it ends the parse,
  which succeeds;
- in `cf_parse_value` (src/cf.c:141) it ends only the value, and the parse
  goes on after it;
- in `cf_parse_section_name` and `cf_parse_key_value_pair` (src/cf.c:119,
  171) it fails the parse.

## Model

| member | source | states |
|---|---|---|
| Bytes.Signed | src/buf.c:324-330 | a byte read through a signed `char` lies in -128..127, is negative exactly when the byte is 0x80 or above, and truncates back to the same byte |
| Bytes.StrCmpZeroIff | src/att.c:48-54 | `strcmp` returns 0 exactly when the two strings are equal |
| Bytes.IndexOf | src/standalone.c:51 | `strchr`: the first position holding the byte, or none exactly when the byte is absent |
| Bytes.LastIndexOf | src/value.c:45 | `strrchr`: the last position holding the byte; nothing after it holds it; none exactly when the byte is absent |
| Buffers.Grown | src/buf.c:108-122 | the `GROW` rule never shrinks an allocation, makes it hold at least what is wanted, and leaves an allocation that is already large enough alone |
| Buffers.LTrimmedDropsSpaces | src/buf.c:273-285 | left trimming removes a prefix made only of whitespace, and what is left does not start with whitespace |
| Buffers.RTrimmedDropsSpaces | src/buf.c:287-295 | right trimming removes a suffix made only of whitespace, and what is left does not end with whitespace |
| Buffers.LTrimmedUnique | src/buf.c:280 | whitespace followed by text that does not start with whitespace trims to exactly that text |
| Buffers.RTrimmedUnique | src/buf.c:293 | text that does not end with whitespace, followed by whitespace, trims to exactly that text |
| Buffers.TrimIdempotent | src/buf.c:273-295 | trimming twice is trimming once, on either side |
| Buffers.Move | src/buf.c:310 | `memmove` of overlapping ranges: the destination gets the old source bytes, and every other byte is kept |
| Buffers.CopyIn | src/buf.c:166 | `memcpy` into the array: the destination range holds the data, and every other byte is kept |
| Buffers.ReplaceRange | src/buf.c:309-312 | the memmove and memcpy of `buf_splice` leave the old prefix, the data, then the old suffix |
| Buffers.Buffer.Avail | src/buf.c:144-149 | `buf_avail`: `alloc - len - 1` when allocated, 0 otherwise, and always room within the array |
| Buffers.Buffer.Init | src/buf.c:69-78 | `buf_init`: empty, position 0, the allocation the hint asks for through `GROW`, and room for at least the hint |
| Buffers.Buffer.Release | src/buf.c:80-88 | `buf_release`: empty and unallocated; an unallocated buffer is left as it is |
| Buffers.Buffer.Detach | src/buf.c:93-103 | `buf_detach` returns exactly the contents and leaves an empty, unallocated buffer |
| Buffers.Buffer.Grow | src/buf.c:124-132 | `buf_grow`: contents and position kept, allocation `GROW` of `len + extra + 1`, room for `extra` more bytes |
| Buffers.Buffer.SetLen | src/buf.c:134-142 | `buf_setlen`: the contents become the first n bytes of the array, and the position is clamped to the new length |
| Buffers.Buffer.AddCh | src/buf.c:151-158 | `buf_addch`: one byte, the int truncated to a char, appended; position kept |
| Buffers.Buffer.Add | src/buf.c:160-168 | `buf_add`: the data appended; position kept; allocation by `GROW` |
| Buffers.Buffer.AddStr | src/buf.c:170-174 | `buf_addstr`: the string appended |
| Buffers.Buffer.LeadingSpaces | src/buf.c:280 | the scan of `buf_ltrim` stops at the first byte that is not whitespace |
| Buffers.Buffer.LTrim | src/buf.c:273-285 | `buf_ltrim`: the contents are the left-trimmed old contents, and the position moves back by the bytes removed, or to 0 |
| Buffers.Buffer.RTrim | src/buf.c:287-295 | `buf_rtrim`: the contents are the right-trimmed old contents, and the position is clamped |
| Buffers.Buffer.Splice | src/buf.c:300-313 | `buf_splice`: a negative offset counts from the end, and n bytes at the offset are replaced by the data |
| Buffers.Buffer.SpliceStr | src/buf.c:318-322 | `buf_splicestr`: the same, with a null string inserting nothing |
| Buffers.Buffer.FGetC | src/buf.c:324-330 | `buf_fgetc`: the byte at the position, as a signed char, and the position moves on; EOF at the end with the position kept |
| Buffers.Buffer.UngetC | src/buf.c:332-338 | `buf_ungetc`: the position moves back and the byte there is overwritten by the truncated int; EOF and no change at position 0 |
| Buffers.Buffer.FTell | src/buf.c:340-345 | `buf_ftell`: the read position, which never lies past the content |
| Buffers.Buffer.Rewind | src/buf.c:347-352 | `buf_rewind`: the position is 0 and the contents are unchanged |
| Lists.Node.New | src/list.c:53-62 | `list_new`: a one-node list holding the element |
| Lists.UntilNull | src/list.c:105-108 | the arguments of `list_from` up to the first null one |
| Lists.FirstMatch | src/list.c:123-132 | the position of the first element satisfying the test, or none exactly when no element does |
| Lists.Length | src/list.c:74-83 | `list_length`: the number of nodes, and 0 exactly for the empty list |
| Lists.Push | src/list.c:85-97 | `list_push`: a fresh node at the tail; the head is unchanged unless the list was empty; the elements are the old ones and the new one |
| Lists.Last | src/list.c:94 | the walk of `list_push` stops at the tail node |
| Lists.Link | src/list.c:95 | linking a fresh node after the tail gives a list of one more node |
| Lists.From | src/list.c:99-111 | `list_from`: a fresh list of the arguments up to the first null, in order |
| Lists.ForEach | src/list.c:113-121 | `list_foreach_byval`: the function applied to every element in list order |
| Lists.FirstMatchIs | src/list.c:127-130 | the first match is at k when k matches and nothing before it does |
| Lists.FindFirst | src/list.c:123-132 | `list_find_first`: the first node whose element satisfies the test, or null when none does |
| Lists.Remove | src/list.c:134-149 | `list_remove`: an absent link leaves the list as it was; otherwise the link is unlinked with its `next` cleared, the head changes only when the link was the head, and the other elements keep their order |
| Lists.Unlink | src/list.c:139-143 | the found branch of `list_remove`: the predecessor or the head skips the link |
| Lists.Detach | src/list.c:140-142 | the pointer writes of that branch leave a list of the other nodes |
| Lists.ElementsRemoved | src/list.c:134-149 | the elements without the k-th node are the elements with the k-th removed |
| Lists.RemovedIsList | src/list.c:140-142 | after the unlink the remaining nodes form a null-terminated list |
| Values.IsLuaCodeAsWritten | src/value.c:27-51 | `is_lua_code` as written, where a text without a closing brace aborts |
| Values.MissingBraceAborts | src/value.c:45-46 | on `lua { return 1+2+3` the code as written aborts, while the intended classification is a literal |
| Values.MissingBraceSplit | src/value.c:38-43 | that text passes the keyword, whitespace and brace checks |
| Values.AsWrittenAgrees | src/value.c:27-51 | wherever the code as written does not abort, it agrees with the corrected classification |
| Values.LastIndexOfAfterPreamble | src/value.c:44-45 | the preamble holds no `}`, so `strrchr` after the splice lands in the code |
| Values.LuaSourceOfForm | src/value.c:38-47 | every text `lua`, whitespace, `{`, code, `}`, then text without `}`, gives the preamble followed by exactly that code |
| Values.LuaSourceHasForm | src/value.c:38-47 | every text classified as Lua code has that form, with the code ending at the last `}` |
| Values.Classify | src/value.c:65-78 | `value_new`: a literal holding the text exactly when the text is not Lua code, otherwise the Lua source |
| Values.LiteralEvaluatesToText | src/value.c:65-78 | a text that is not Lua code evaluates to itself |
| Values.IsLuaCode | src/value.c:27-51 | the buffer work of `is_lua_code` returns the chunk of the corrected classification, or none |
| Values.PutPreamble | src/value.c:44 | the splice replaces everything up to and including the `{` by the preamble |
| Values.BraceAfterKeyword | src/value.c:38-43 | the checks pass exactly when the text starts with `lua`, then whitespace, then `{`, and give the position after the `{` |
| Values.CutAtLastBrace | src/value.c:45-47 | the text is cut at the last `}`, and there is no chunk without one |
| Values.SkippedSpaces | src/value.c:41 | the whitespace loop stops where the trimmed text after the keyword starts |
| Values.ValueNew | src/value.c:65-78 | `value_new` returns the classification of the text |
| Values.ValueEval | src/value.c:129-141 | `value_eval`: a literal evaluates to its text; Lua code evaluates to whatever the interpreter gives for its source and the context, including failure |
| Atts.Attribute.New | src/att.c:13-22 | `att_new`: the name, exactly one classified value, the cursor on it |
| Atts.Attribute.ReplaceValue | src/att.c:24-30 | `att_replace_value`: all alternatives replaced by the one new value, name kept |
| Atts.Attribute.AddValue | src/att.c:32-37 | `att_add_value`: the new value appended as the last alternative; name and cursor kept |
| Atts.Attribute.NameEqualTo | src/att.c:48-54 | `att_name_equal_to` is true exactly when the names are equal |
| Atts.Attribute.Reset | src/att.c:63-70 | `att_reset`: the cursor on the first alternative; a single value is left alone |
| Atts.Attribute.Next | src/att.c:72-84 | `att_next`: true exactly when a later alternative exists, and the cursor moves to it; otherwise the cursor wraps to the first |
| Atts.EvalAtt | src/att.c:56-61 | `att_eval`: the alternative under the cursor, evaluated as a literal or through the interpreter |
| Configs.FirstStop | src/cf.c:117-123 | the position of the first byte that ends a scan: nothing before it ends one |
| Configs.HeaderAt | src/cf.c:114-125 | a header that is read ends at a `]`, which is read too; the name is exactly the bytes before it, and none of them is a newline, a `]` or a negative byte |
| Configs.ValueBody | src/cf.c:139-163 | the corrected value loop never reads past the text |
| Configs.ValueBodyShape | src/cf.c:139-163 | the value loop reads up to the newline or negative byte that ends the value, or to the end of the text; it reads at least one byte of a non-empty text; the value holds no newline, since a backslash before a newline joins the lines |
| Configs.ValueOf | src/cf.c:127-164 | `cf_parse_value` never reads past the text |
| Configs.ValueOfShape | src/cf.c:127-164 | the same for the value after its leading blanks: it ends at a newline, a negative byte or the end, and holds no newline |
| Configs.KeyValueAt | src/cf.c:166-181 | `cf_parse_key_value_pair` succeeds exactly when an `=` comes before any newline, bracket or negative byte; the key then holds no byte that ends a key and no whitespace at its end, and starts with the first byte when that is no blank; the value holds no newline |
| Configs.KeyEndsAt | src/cf.c:169-180 | the key loop stops at an `=` exactly when some `=` comes before every other byte that ends a key |
| Configs.KeyTrimmed | src/cf.c:174-175 | the right-trimmed key keeps no stop byte, ends with no whitespace, and keeps a first byte that is not whitespace |
| Configs.ParseSectionName | src/cf.c:114-125 | the buffer loop reads the header that `HeaderAt` describes, and fails exactly when it does |
| Configs.CopyUntil | src/cf.c:117-123 | the copying loop keeps every byte before the first stop and reads the stop itself |
| Configs.CopyRound | src/cf.c:118-122 | one round of that loop keeps or stops as the byte says |
| Configs.CopyingOn | src/cf.c:118-122 | one more byte keeps the copy's invariant or ends it |
| Configs.CopyEnds | src/cf.c:119 | a copy that reaches the end of the text kept all of it |
| Configs.CopyKeeps | src/cf.c:122 | a byte that does not stop the copy is kept |
| Configs.CopyStops | src/cf.c:119-121 | a byte that stops the copy is the first stop |
| Configs.CopyStep | src/cf.c:118-122 | one byte of the copying loop, read and kept or left |
| Configs.SkipBlanks | src/cf.c:130-137 | the blank loop stops at the first byte that is not whitespace, or at a newline, and pushes it back |
| Configs.ReadValueBody | src/cf.c:139-163 | the value loop reads exactly the corrected `ValueBody` |
| Configs.ReadValueStep | src/cf.c:140-160 | one round of the value loop: a plain byte, or a backslash and the byte after it |
| Configs.StopsValue | src/cf.c:141 | the value ends at the end, at a newline, or at a negative byte |
| Configs.PlainByte | src/cf.c:160 | any other byte is part of the value |
| Configs.ReadEscape | src/cf.c:142-158 | the backslash case: a newline joins lines, any other byte is kept after the backslash, and a backslash ending the text is kept and ends the value |
| Configs.EscapeRound | src/cf.c:142-160 | the three ways that case ends, each agreeing with `ValueBody` |
| Configs.JoinedLines | src/cf.c:145-147 | a backslash before a newline joins the two lines |
| Configs.KeptEscape | src/cf.c:153-156 | an unknown escape keeps its backslash and the byte |
| Configs.BackslashAtEnd | src/cf.c:142-143 | a backslash that ends the text is kept, and the value ends |
| Configs.ParseValue | src/cf.c:127-164 | `cf_parse_value` reads `ValueOf` and always succeeds |
| Configs.BodyAfterBlanks | src/cf.c:134-139 | reading after the pushed-back byte is reading the value |
| Configs.ReadKey | src/cf.c:169-179 | the key loop reads up to the first `=`, newline, bracket or negative byte, and reports whether that was `=` |
| Configs.ParseKeyValuePair | src/cf.c:166-181 | `cf_parse_key_value_pair` reads exactly `KeyValueAt` |
| Configs.NoKey | src/cf.c:180 | a key ended by anything but `=` fails |
| Configs.PairFromParts | src/cf.c:174-177 | a key ended by `=`, then a value, make a pair |
| Configs.ValueBodyIsC | src/cf.c:139-164 | a value holds only bytes of the text and backslashes |
| Configs.EntryIsC | src/cf.c:221-223 | a pair read from a C string is made of C strings |
| Configs.ParsedAreC | src/cf.c:183-238 | everything a parse of a C string appends is made of C strings |
| Configs.NextIsC | src/cf.c:188-233 | one round on a C string closes only C strings |
| Configs.Next | src/cf.c:188-233 | a round that goes on reads at least one byte and never past the text |
| Configs.NextShape | src/cf.c:188-233 | a round reports success only at the end of the text or at a negative byte; it closes only sections named by a header and filled with well-formed pairs, and the section being filled keeps that shape |
| Configs.PairShape | src/cf.c:214-223 | a pair that starts at a byte that is no stop, no blank and no comment mark gives a key that reads back and a value without newline or trailing whitespace |
| Configs.AddedShape | src/cf.c:226-231 | adding such an entry to such a section keeps its shape |
| Configs.ParseFrom | src/cf.c:188-237 | from a section being filled with the parser's shape, every section appended has a header's name and well-formed entries |
| Configs.Parse | src/cf.c:183-238 | every section a parse appends has a name without `]`, newline or negative byte; every entry has a key that reads back as itself, and a value without newline and without whitespace at its end |
| Configs.Config.New | src/cf.c:62-70 | `cf_new`: no sections |
| Configs.Config.AddFromString | src/cf.c:81-92 | `cf_add_from_string`: the sections of `Parse(str)` are appended, even when the parse fails, and the result is the parse's verdict |
| Configs.Config.ParseText | src/cf.c:183-238 | `cf_parse_text`: the sections of the unread text are appended, and the result is the verdict of `Parse` |
| Configs.Config.Round | src/cf.c:188-233 | one round the loop makes, proved against `Next` |
| Configs.Config.HeaderStep | src/cf.c:200-212 | the `[` round once the byte is read |
| Configs.Config.Header | src/cf.c:200-212 | the section being filled is appended, then the new one is named; a header cut short ends the parse |
| Configs.SkipRound | src/cf.c:191-199 | a newline ends a comment, `;` and `#` start one, and blanks and commented bytes are passed over |
| Configs.HeaderRound | src/cf.c:200-212 | the `[` round appends the current section whether or not the header is well formed |
| Configs.EntryRound | src/cf.c:213-232 | a stray `=` fails; any other byte starts a pair whose entry goes to the current section |
| Configs.HeaderLaw | src/cf.c:204-211 | the sections appended and the parse still ahead give the parse of the round |
| Configs.EntryStep | src/cf.c:214-232 | the entry round once its byte is read |
| Configs.AddEntryFrom | src/cf.c:218-231 | the byte is pushed back, the pair read, and its entry added to the current section or dropped |
| Configs.ReadEntry | src/cf.c:219-223 | the pair read into fresh buffers, the value right-trimmed |
| Configs.ReadPair | src/cf.c:219-221 | `cf_parse_key_value_pair` into two fresh buffers |
| Configs.TrimmedEntry | src/cf.c:222-223 | the entry holds the key and the right-trimmed value |
| ConfigLaws.PlainValueBody | src/cf.c:139-164 | a value without escapes runs to its newline and uses it up |
| ConfigLaws.NextHeaderLine | src/cf.c:200-212 | a header line is read up to its `]` |
| ConfigLaws.HeaderParsed | src/cf.c:200-212 | a header line closes the current section and names the next one |
| ConfigLaws.SkipParsed | src/cf.c:191-199 | a byte that is passed over changes only the comment flag |
| ConfigLaws.KeyOfLine | src/cf.c:169-179 | the key of an entry line runs up to its `=` |
| ConfigLaws.ValueOfLine | src/cf.c:127-164 | the value of an entry line runs to its newline |
| ConfigLaws.NextEntryLine | src/cf.c:214-232 | an entry line is read as one pair |
| ConfigLaws.EntryParsed | src/cf.c:226-231 | an entry line goes to the current section, and nowhere when there is none |
| ConfigLaws.AddEntriesTo | src/cf.c:231 | the entries added one by one are appended in order |
| ConfigLaws.EntriesParsed | src/cf.c:214-232 | a run of entry lines goes, entry by entry, to the current section |
| ConfigLaws.RenderThen | src/cf.c:183-238 | reading sections in plain form closes all but the last, which is still being filled |
| ConfigLaws.SectionParsed | src/cf.c:200-232 | a section in plain form closes the current one and is being filled after its last entry |
| ConfigLaws.ClosedCons | src/cf.c:204-207 | closing one more section appends the one before it |
| ConfigLaws.ParseRender | src/cf.c:183-238 | a configuration in plain form parses back to exactly its sections, and the parse succeeds |
| ConfigLaws.ClosedPendingAll | src/cf.c:234-237 | at the end of the text, the closed and pending sections are all the sections read |
| ConfigLaws.NoRollback | src/cf.c:204-208 | after a text whose last header is cut short, every section before it is appended, and the parse fails |
| ConfigLaws.CutHeader | src/cf.c:204-208 | a header cut short by the end appends the current section and fails |
| ConfigLaws.OrphanEntryDropped | src/cf.c:226-229 | an entry before the first header belongs to no section and is dropped |
| ConfigLaws.CommentEnds | src/cf.c:191-195 | inside a comment everything up to the newline is passed over, and the newline ends it |
| ConfigLaws.CommentLine | src/cf.c:196-199 | a comment line started by `;` or `#` changes nothing |
| ConfigLaws.BlanksSkipped | src/cf.c:195 | whitespace between lines changes nothing |
| ConfigLaws.AsWrittenAddsByte | src/cf.c:139-164 | the value loop as written and as intended read the same, except that a backslash ending the text gets a 0xFF byte after it as written |
| ConfigLaws.TrailingBackslash | src/cf.c:142-160 | on `k = a\` at the end of the text, the code as written stores `a\` and 0xFF, while `a\` is intended |
| Odometer.TotalPositive | src/pathcomp.c:225-238 | with at least one alternative per attribute, there is at least one combination |
| Odometer.IndexBound | src/pathcomp.c:225-238 | a combination's position is below the number of combinations |
| Odometer.IndexZeros | src/pathcomp.c:208-216 | the first combination is at position 0 |
| Odometer.StepAdvances | src/pathcomp.c:225-238 | a step reports true exactly when a later combination exists, then lands on the next position; otherwise every cursor returns to 0 |
| Odometer.IndexDigits | src/pathcomp.c:225-238 | each position below the number of combinations has a combination, whose position it is |
| Odometer.DigitsIndex | src/pathcomp.c:225-238 | each combination is the one at its own position |
| Odometer.StepMovesFirst | src/pathcomp.c:231-234 | the first cursor that can move moves, those before it return to 0, and those after it stay |
| Odometer.StepWrapsAll | src/pathcomp.c:231-236 | when no cursor can move, every cursor returns to 0 and the step reports false |
| ComposerStates.Lookup | src/pathcomp.c:65 | `list_find_first` with `att_name_equal_to`: the first attribute with the name, or none exactly when no attribute has it; with unique names, the only one |
| ComposerStates.EvalIn | src/pathcomp.c:149-159 | `pathcomp_eval_nocopy` on a snapshot: no value for a name no attribute carries |
| ComposerStates.EvalInCases | src/pathcomp.c:149-159 | the attribute found by the name gives its current alternative: a literal as it is, Lua code through the interpreter with the attributes as context |
| ComposerStates.JoinedCases | src/pathcomp.c:176-185 | the path is a non-empty root, a slash, then a non-empty compose; no path exactly when both are missing or empty |
| ComposerStates.JoinedBytes | src/pathcomp.c:176-185 | the bytes in the buffer are the path, and an empty buffer means no path |
| ComposerStates.YieldOf | src/pathcomp.c:167-186 | `pathcomp_yield` on a snapshot: a path it gives is never empty |
| ComposerStates.YieldOfCases | src/pathcomp.c:167-186 | the values of `root` and `compose` joined: a non-empty root and a slash, then a non-empty compose; no path exactly when both are unknown, fail to evaluate or are empty |
| ComposerStates.NextOf | src/pathcomp.c:225-238 | `pathcomp_next`: nothing moves once done; otherwise true exactly when a later combination exists, and the composer lands on it; after the last combination every cursor is back on the first and done is set |
| ComposerStates.NextFirstMoves | src/pathcomp.c:231-232 | the loop stopping at the first attribute that moves gives `NextOf` |
| ComposerStates.NextWrapsAll | src/pathcomp.c:231-237 | the loop finding no attribute that moves gives `NextOf` with done set |
| ComposerStates.ResetOf | src/pathcomp.c:208-216 | `pathcomp_reset`: every cursor on the first alternative, both flags cleared, names and values kept |
| ComposerStates.MovesOfCount | src/pathcomp.c:225-238 | from a combination not yet done, `pathcomp_next` reports true once for every later combination |
| ComposerStates.ResetMoves | src/pathcomp.c:208-238 | after a reset, `pathcomp_next` reports true one time fewer than there are combinations |
| ComposerStates.AppendedLookup | src/pathcomp.c:66-70 | an attribute appended at the end is found by its name only when no earlier one has it |
| ComposerStates.UpdatedLookup | src/pathcomp.c:73-74 | changing an attribute but not its name changes no lookup |
| ComposerStates.AddOrReplaceOf | src/pathcomp.c:59-75 | `pathcomp_add_or_replace` keeps every attribute well formed and the names unique |
| ComposerStates.AddOrReplaceLaws | src/pathcomp.c:59-75 | an unknown name gets a new single-valued attribute at the end; the name then holds only the new value (replace) or its old values and the new one (add); every other name keeps its attribute |
| ComposerStates.SetOf | src/pathcomp.c:188-196 | `pathcomp_set` on a snapshot: the attributes stay well formed with unique names, the name is known, every cursor is on the first alternative and both flags are cleared |
| ComposerStates.AddOf | src/pathcomp.c:198-206 | `pathcomp_add` on a snapshot: the same |
| ComposerStates.SetOfValues | src/pathcomp.c:188-196 | after `pathcomp_set` the name holds the one new value, and every other name keeps its values |
| ComposerStates.WithSectionsStep | src/pathcomp.c:84-94 | a section named otherwise is passed over; one named like the composer has its entries added |
| ComposerStates.WithEntries | src/pathcomp.c:88-93 | adding a section's entries keeps the attributes well formed with unique names, and leaves an enumeration that had not started unstarted |
| ComposerStates.WithSections | src/pathcomp.c:77-96 | the same over all sections named like the composer |
| ComposerStates.WithEntriesStep | src/pathcomp.c:88-93 | each entry is added as by `pathcomp_add` |
| ComposerStates.AddOfValues | src/pathcomp.c:198-206 | `pathcomp_add` appends the value to its key and leaves every other key's values |
| ComposerStates.WithEntriesValues | src/pathcomp.c:88-93 | after a section's entries, each key has its old values and then the values of its entries, in order |
| ComposerStates.WithSectionsValues | src/pathcomp.c:84-95 | the same over all sections named like the composer, in order |
| ComposerStates.FromConfigValues | src/pathcomp.c:77-96 | a composer built from the configuration has, for every key, exactly that key's values in the sections named like it, earliest first |
| ComposerStates.Probe | src/pathcomp.c:254-255 | the head of a round of `pathcomp_find`: advance unless this is the first round since a reset, then mark the enumeration started |
| ComposerStates.FindOf | src/pathcomp.c:248-262 | `pathcomp_find`: no path exactly when done is set; a path returned is the current combination's and exists |
| ComposerStates.FindRound | src/pathcomp.c:253-260 | one round stops at done or at an existing path, or goes on with less left to try |
| ComposerStates.FirstHit | src/pathcomp.c:248-262 | the first position from a start whose path exists, or the number of combinations |
| ComposerStates.FirstHitIsFirst | src/pathcomp.c:248-262 | that position's path exists, and no position before it has an existing path |
| ComposerStates.FindFirst | src/pathcomp.c:248-262 | `pathcomp_find` stops on the first combination, from where it starts, whose path exists, and returns no path exactly when there is none |
| ComposerStates.FindStops | src/pathcomp.c:256-258 | the round where the search stops is the first hit |
| ComposerStates.FindGoesOn | src/pathcomp.c:259 | a round that misses leaves the search's outcome unchanged |
| ComposerStates.MissKeepsFirstHit | src/pathcomp.c:259 | a round that misses leaves the first hit where it was |
| ComposerStates.PrefixesBelowStep | src/pathcomp.c:273-276 | a prefix is handed over exactly at each slash that ends a component |
| ComposerStates.PrefixesBelowCuts | src/pathcomp.c:272-285 | the directories are exactly the path up to each slash that ends a component, shortest first |
| ComposerStates.AllMadeAppend | src/pathcomp.c:277-283 | the verdict stays true exactly while every mkdir succeeded or found the directory there |
| Composers.AssemblePath | src/pathcomp.c:173-185 | the buffer work of `pathcomp_yield` gives exactly the joined path |
| Composers.MakeDirs | src/pathcomp.c:271-287 | the loop of `pathcomp_mkdir` hands over exactly the prefixes that `PrefixesBelowCuts` describes, and its verdict is whether every one was made or already there |
| Composers.MakeDirAt | src/pathcomp.c:276-284 | at a slash, the prefix before it goes to mkdir, and a refusal clears the verdict |
| Composers.SkipSlashes | src/pathcomp.c:273 | the scan skips slashes, none of which hands over a prefix |
| Composers.SkipComponent | src/pathcomp.c:274-275 | the scan stops at the slash ending a component, or at the end |
| Composers.Turn | src/pathcomp.c:232-234 | `att_next`, then `att_reset` once wrapped: true exactly when the attribute moved, its cursor then on the next alternative and otherwise on the first |
| Composers.Composer.New | src/pathcomp.c:112-136 | `pathcomp_new`: the name, the attributes of the sections named like it, and flags cleared |
| Composers.Composer.FindAttribute | src/pathcomp.c:155 | the search of the attribute list gives `Lookup` |
| Composers.Composer.EvalNoCopy | src/pathcomp.c:149-159 | `pathcomp_eval_nocopy`: the named attribute's current alternative evaluated, or none for an unknown name |
| Composers.Composer.Yield | src/pathcomp.c:167-186 | `pathcomp_yield`: the path of the current combination, and the composer unchanged |
| Composers.Composer.Push | src/pathcomp.c:66-70 | a new single-valued attribute appended for an unknown name |
| Composers.Composer.Update | src/pathcomp.c:72-74 | replace or add on the attribute found, no other attribute touched |
| Composers.Composer.AddOrReplace | src/pathcomp.c:59-75 | the list becomes `AddOrReplaceOf` of the old one, flags unchanged |
| Composers.Composer.Set | src/pathcomp.c:188-196 | `pathcomp_set`: values replaced, then a reset |
| Composers.Composer.Add | src/pathcomp.c:198-206 | `pathcomp_add`: value appended, then a reset |
| Composers.Composer.ResetAt | src/pathcomp.c:213 | `att_reset` on one attribute, the others unchanged |
| Composers.Composer.Reset | src/pathcomp.c:208-216 | `pathcomp_reset` gives `ResetOf` of the old state |
| Composers.Composer.Done | src/pathcomp.c:218-223 | `pathcomp_done`: the done flag, which `NextOf` sets after the last combination, with nothing changed |
| Composers.Composer.TurnAt | src/pathcomp.c:232-234 | one attribute's turn, the others unchanged |
| Composers.Composer.Carry | src/pathcomp.c:231-235 | the loop of `pathcomp_next`: the first attribute that can move moves, all before it are back on their first alternative, and the rest stay |
| Composers.Composer.Next | src/pathcomp.c:225-238 | `pathcomp_next` returns and leaves exactly `NextOf` of the old state |
| Composers.Composer.Attempt | src/pathcomp.c:254-259 | one round of `pathcomp_find`: it stops exactly at done or at an existing path, and returns that path |
| Composers.Composer.Begin | src/pathcomp.c:254-255 | the start of a round gives `Probe` of the old state |
| Composers.Composer.Find | src/pathcomp.c:248-262 | `pathcomp_find` returns and leaves exactly `FindOf` of the old state |
| Composers.Composer.Mkdir | src/pathcomp.c:264-288 | `pathcomp_mkdir` hands over the prefixes of the yielded path, shortest first, and reports whether none was refused |
| Composers.Composer.AddEntries | src/pathcomp.c:88-93 | every entry of a section, in order, through `pathcomp_add` |
| Composers.Composer.AddSection | src/pathcomp.c:84-86 | the entries of a section named like the composer are added; others change nothing |
| Composers.Composer.MakeFromConfig | src/pathcomp.c:77-96 | `pathcomp_make_from_config` gives `WithSections` of the old state, and nothing without a configuration |
| Standalone.KvNew | src/standalone.c:41-69 | `kv_new` refuses exactly the arguments whose key is empty |
| Standalone.KvNewRendersBack | src/standalone.c:50-66 | what `kv_new` keeps renders back to the argument; the key holds no `=`; a setting's key is not empty and does not end in `+` |
| Standalone.KvNewRender | src/standalone.c:50-66 | reading a rendered argument gives it back, for every argument `kv_new` can produce |
| Standalone.KvAddToComposer | src/standalone.c:80-87 | `kv_add_to_composer`: `pathcomp_add` for `+=`, `pathcomp_set` otherwise |
| Standalone.KvEffectValues | src/standalone.c:80-87 | afterwards the key holds the value alone (`=`) or its former values and the new one (`+=`); every other key keeps its values |

## Left out

- The Lua interpreter is a parameter: a function from a chunk and a snapshot of the attributes to an optional string. It stands in for the metatable, the `__index` callback and pathcomp_eval_callback (src/pathcomp.c:98-110, 125-132), and for luaL_loadstring and lua_pcall in value_eval_lua (src/value.c:104-127).
- `stat(2)` in path_exists (src/pathcomp.c:240-246) is a predicate on paths. `mkdir(2)` and `errno` are a function from a path to made, already there or refused.
- The temporary `'\0'` written into the path by pathcomp_mkdir, and into the key by kv_new, is modelled as taking a prefix.
- File input is not modelled: cf_add_from_file, buf_read_file and the other buf_read functions, and pathcomp_add_config_from_file/string. The global `config` is passed to `Composer.New` as an explicit `Config?`.
- buf_addf and buf_vaddf are not modelled: they depend on `vsnprintf` formatting.
- Memory management is not modelled: malloc failure returning NULL, free, list_free, cf_free, pathcomp_free, value_free and the strdup copies. Values are immutable Dafny values; they are not separately owned strings.
- Logging is not modelled: log.c and the error messages.
- pathcomp_clone, pathcomp_dump and pathcomp_rewind are declared in include/pathcomp.h, but src/pathcomp.c does not define them, so they are not part of this model. The same goes for class inheritance between sections, attribute origins and integer values. pathcomp_reset is the rewind that the code has.
- pathcomp_eval is not modelled separately: it is pathcomp_eval_nocopy followed by a strdup (src/pathcomp.c:161-165).
- value_add and the VALUE_ALT alternatives list are not in value.c. An attribute's alternatives are modelled as a sequence with a cursor index, with att_next and att_reset following the code in att.c.
- The command line (opt_new, the usage text, main and its option flags) is out of scope. Only kv_new and kv_add_to_composer are modelled.
- Standalone.KvNew: requires the argument to contain `=`. kv_new asserts this, and the assertion also wraps the strdup call, so without `=` the C program aborts (or, with NDEBUG, misbehaves).
- Composers.Composer.Mkdir: requires that the current combination yields a path. pathcomp_mkdir dereferences the NULL that pathcomp_yield returns when there is none.
- Buffers.Buffer.Add: the data is a sequence, so the `if (!data) return;` guard for a null pointer has no counterpart.
- Configs.Config.ParseText: requires the unread text to hold no NUL byte. Text from cf_add_from_string is a C string, so it holds none. A file read with NUL bytes in it would have its names and keys cut at the NUL, and file reading is not modelled.
- The static one-byte `buf_initial` of an unallocated buffer is modelled as a fresh one-byte array per buffer. Bytes that realloc adds past the old allocation are modelled as NUL, though C leaves them unspecified; nothing reads them before writing.
- Buffers.Buffer.Splice: the position is stated as clamped by buf_setlen. The source only says the position is unspecified afterwards.
- The char signedness is fixed as signed. On a platform with unsigned char, the `ch < 0` tests in cf.c would only stop at EOF.
- pathcomp_set and pathcomp_add reset the enumeration (src/pathcomp.c:195, 205), as include/pathcomp.h:59 and :68 also say. The tests in test/test_set.c:50-112 expect no rewind after set or add. The model follows the code.

## Findings

| source | as written | input that shows it | evidently intended | confidence | as-written member | corrected member |
|---|---|---|---|---|---|---|
| src/value.c:45-46 | the result of `strrchr(buf.buf, '}')` is used unchecked, so a text with no closing brace gives a huge length to `buf_setlen`, whose assertion aborts | `lua { return 1+2+3` | a text without a closing brace is a literal | not executed | Values.MissingBraceAborts | Values.IsLuaCode |
| src/cf.c:142-160 | after a backslash, the second `buf_fgetc` can return EOF, which falls through to `buf_addch(value, ch)` and stores 0xFF after the backslash | `k = a\` at the end of the text | the backslash is kept and the value ends | not executed | ConfigLaws.TrailingBackslash | Configs.ReadEscape |
