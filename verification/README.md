# Verification of the kernel-release tooling

This project models the parts of the repository's tools that decide something, and proves what
those decisions mean. Five models, each an imperative program or a state machine paired with a
simple specification it refines:

1. **Device-tree semantic comparison** (`Dts*.dfy`). The scanner, the recursive-descent parser with
   its cursor and its growing tables, the property-value parser and printer, the canonical form that
   turns phandle numbers and labels into node paths, and the comparison of two trees. Every loop and
   every parser method is proved equal to a function of the text or the tokens; about those functions
   it is proved which token lists parse without an issue (a grammar over positions, `DtsSyntax`) and what
   makes a tree free of caveats, exactly which values survive printing, that a printed tree reads back node by
   node with its phandle and label tables, that parsed trees are well shaped, exactly which references stay
   unresolved, exactly when renumbering phandles or spelling them as labels is invisible, what the comparison
   cannot see of comma-separated names, and that it is symmetric.
   The syntax is chapter 6 of the Devicetree Specification v0.4, phandles are its section 2.3.3.
2. **DTBO containers and FDT images** (`ByteCodec`, `Dtbo*`, `FdtScan`). Big-endian words written into
   one buffer, the extractor's validating loop, what it accepts and refuses word by word, both directions of
   the round trip, and a scan for device trees that misses none. The header fields of an FDT are those of section 5.2 of the
   Devicetree Specification v0.4.
3. **Dual-clock observation** (`Clock*`). The observer's sampling loop with its 64-bit arithmetic as a
   producer of records, the analyzer's passes over them, its detection threshold by counting, what a clean
   report means record by record, every verdict and warning as a condition on the records, and exactly which
   runs are affirmed.
4. **Archive staging** (`ZipIndex`, `MemberPaths`, `Publication`, `LinkResolution`, `UnpackWorklist`,
   `ZipTransaction`, `ReportPublish`). Path-prefix sets against a pairwise rule, lexical link normalisation
   against a walk, publication by depth, links resolved through links, a bounded worklist, and two
   transactions in which any operation may fail.
5. **Campaign verdict and module closure** (`Campaign*`, `ModuleClosure`). The record validator, the
   aggregator against a declarative rule, every verdict by the positions of the records that decide it, and
   the dependency and load-order checks.

The shape is the same throughout: a method or class does what the code does step by step and its
`ensures` equates the result with a specification function or characterises it outright; lemmas then
say what the specification function means without mentioning the code. `DtsSyntax`, `DtsSyntaxExact`, `DtsCaveats`,
`DtsTables`, `DtsBrackets`, `DtsLists`, `DtsComments`, `DtsDirectives`, `DtsUnresolved`, `DtsReport`, `DtboMeaning`, `ClockMargin`,
`ClockReport` and `CampaignMeaning` hold nothing but such lemmas.

## Where the code does less, or other, than expected

These are properties one would expect that fail on some input. The code is modelled as it is; each has
a concrete witness or an exact condition.

- A comma is punctuation and the parser keeps the last word of a header, so a property written `vendor,x` is
  stored as `x`. `DtsNames.NameSurvivesExactly` says when a written name is kept, and two sources that differ
  only in the words in front parse to the same tree without an issue (`FrontWordsAreForgotten`), so `a,b` and
  `c,b` compare EQUIVALENT (`DtsNames.VendorIsLost`).
- Writing phandle numbers as labels can change the canonical form: in a property whose name is not one
  of the known reference names, a label switches the reading of `0xFFFFFFFF` on one side only
  (`DtsInvariance.SentinelTrapHappens`). `DtsLabels.LabelsAreInvisible` proves that this is the only case,
  for whole trees; when a node has `0xFFFFFFFF` for its own phandle, a label can also settle a reference
  that the number leaves unresolved (`DtsLabels.LocalSentinelLosesEvidence`).
- Two adjacent string lists print and read back as one list (`DtsValueRoundTrip.AdjacentStringListsMerge`).
- Tokens are tested by value, so a string equal to a punctuation character is taken for it
  (`DtsValueExact.OneStringReadsBack`).
- A directive's skipping is meant to stop at a brace, but a brace nests first: a directive that is not understood
  runs on to a semicolon outside brackets, and takes along a block that starts right behind it
  (`DirectiveFits` in `DtsSyntax`). A directive cut off by the end of the text leaves no issue
  (`OpenDirective` in `DtsSyntaxExact.SyntaxExactly`).
- A source that declares nodes but no root makes the parser fail with a missing key
  (`DtsShape.FailsExactlyWithoutRoot`; `a { };` in `DtsFile.MissingRootFails`).
- A member name `./~a` passes the name check although `~a` does not (`MemberPaths.TildeGetsThrough`);
  `AcceptedAgainExactly` says when the check accepts its own result.
- The analyzer raises, instead of reporting, exactly when the one metadata record has null or text for one of
  its two clocks and some sample or end record has two integer clocks (`ClockVerdict.RaisesExactly`, with
  `NullClockRaises`); a float, a boolean or an absent metadata clock does not raise.
- The analyzer's check for a large regression of the offset can never report
  (`ClockVerdict.LargeRegressionNeverFires`), and its pair-span limit is not applied to the metadata record's
  own pair (`ClockAccepts.SlowStartIsAffirmed`).
- Parse errors whose text starts with `CGROUP_` do not invalidate a report
  (`SetAside` in `ClockVerdict.AffirmativeExactly`).
- The aggregator's demand for twelve valid trials is implied by its demand on the cells
  (`CampaignAggregator.TwelveGuardIsDead`).
- The validator raises, instead of reporting, on a reap without a spawn (`CampaignValidator.ReapAloneRaises`) and
  on a stamp that is null or text, right after reporting it as invalid (`NullStampRaises`); `RaisesExactly` lists
  every guard. The order of the records then decides between the exception and a verdict
  (`CampaignAggregator.OrderDecidesOnce`).
- The test that a published link resolves inside the staging directory can find a loop and nothing else
  (`LinkResolution.OnlyLoopsFail`, with `TwoLinksLoop`).
- The worklist's test for partial downloads never skips anything (`UnpackWorklist.PartIsNeverQueued`).
- The report publisher reports a failure when only the removal of the old report failed, although the new
  one is in place; with two faults a report can be lost (both in `ReportPublish.Publish`).
- The ZIP extraction can report a failure with the destination in place, when closing the parent directory
  fails after the rename (`ZipTransaction.ExtractArchive`).

## Model

| member | source | states |
|---|---|---|
| DtsText.DecodeDtsString | tools/dts_semantic_diff.py:141-178 | the loop over one quoted string yields the decoded string, escapes and malformed escapes alike |
| DtsText.EscapeDecodes | tools/dts_semantic_diff.py:141-178 | a backslash and any character but `x` decode to the character the escape table gives, or else to the character itself, whatever follows |
| DtsText.HexEscapeDecodes | tools/dts_semantic_diff.py:141-178 | `\x` and the two digits of a byte decode to the character of that number |
| DtsText.BareXDecodes | tools/dts_semantic_diff.py:141-178 | without two hexadecimal digits behind it the `x` is kept as a letter |
| DtsText.EscapedStringReadsBack | tools/dts_semantic_diff.py:89-107 | an escaped string decodes to itself exactly when every control character in it has an escape of its own |
| DtsText.PrintedNumberReadsBack | tools/dts_semantic_diff.py:187-196 | a printed cell is read back as the same number exactly when it is not negative, and as no number otherwise |
| DtsText.DecimalReadsBack | tools/dts_semantic_diff.py:187-196 | the decimal digits of any number, with leading zeros and a sign or none, are read as that number |
| DtsText.HexadecimalReadsBack | tools/dts_semantic_diff.py:187-196 | so are its hexadecimal digits behind either spelling of the prefix |
| DtsText.DigitIsItsPlace | tools/dts_semantic_diff.py:187-196 | a hexadecimal digit of either case is worth its place among the sixteen |
| DtsText.BytesNormalised | tools/dts_semantic_diff.py:613-628 | one or two hexadecimal digits, with either prefix or none, are stored as the two digits of their number |
| DtsScanner.ReadLexeme | tools/dts_semantic_diff.py:202-271 | one turn of the scanner takes the next lexeme of the rest of the text, whichever branch it falls in |
| DtsScanner.Scan | tools/dts_semantic_diff.py:199-273 | scanning yields the token list that `Lex` defines, with line numbers, or its unterminated-comment or unterminated-string error |
| DtsComments.CommentBetweenTokens | tools/dts_semantic_diff.py:213-226 | a comment of either form between two texts changes no token of theirs, and moves the lines behind it by the newlines it holds |
| DtsComments.WordsApart | tools/dts_semantic_diff.py:213-226 | two words with a comment between them are two tokens, the second on a line moved by the newlines of the comment |
| DtsComments.ScansConcatenated | tools/dts_semantic_diff.py:199-273 | the hypothesis of the comment statement, that a text scans up to a delimiter, holds of printed text (`PrintedScans`) and of texts put together |
| DtsComments.OpenBlockComment | tools/dts_semantic_diff.py:221-226 | a block comment that never closes is the error at its line; `OpenLineComment` is the end of the tokens |
| DtsComments.SpaceIsSkipped | tools/dts_semantic_diff.py:208-212 | 29 characters separate tokens and are skipped, a line feed among them counting a line; every other character but punctuation, quote and slash is part of a word |
| DtsComments.RawStringIsToken | tools/dts_semantic_diff.py:227-248 | a quoted text without escapes is one string token of the line it starts on, and the newlines in it are counted |
| DtsValues.ParsePropertyValue | tools/dts_semantic_diff.py:566-649 | the value loop and its four inner loops return the parts that `ParseParts` defines on the whole token list |
| DtsValues.ReadCells | tools/dts_semantic_diff.py:574-612 | the loop over one angle list takes exactly its run of tokens and returns its atoms |
| DtsValues.ReadBytes | tools/dts_semantic_diff.py:613-628 | the loop over one byte list takes exactly its run and returns its items |
| DtsValues.ReadStrings | tools/dts_semantic_diff.py:629-640 | adjacent strings with optional commas are one part, split at NUL |
| DtsValues.SplitAtNul | tools/dts_semantic_diff.py:629-640 | NUL characters, and they alone, separate the strings of one literal |
| DtsLists.SlashCellExactly | tools/dts_semantic_diff.py:589-603 | a slash in a cell list makes one raw cell of the texts up to the next slash, with both slashes, or up to a comma, a closing bracket or the end |
| DtsLists.LabelCells | tools/dts_semantic_diff.py:581-588 | an ampersand and the token behind it, whatever it is, are one reference, and a last ampersand is a missing label |
| DtsLists.CellsExactly | tools/dts_semantic_diff.py:574-612 | any other first token of a cell list: a comma adds nothing, a closing bracket ends it, a numeral is a number and the rest raw text |
| DtsLists.BytesExactly | tools/dts_semantic_diff.py:613-628 | the same for a byte list |
| DtsLists.StringsExactly | tools/dts_semantic_diff.py:629-640 | a string token adds the strings in it and takes a comma right behind it along |
| DtsLists.PartsExactly | tools/dts_semantic_diff.py:566-649 | which part the first token of a value opens, and that reading goes on behind the list and its closing bracket, which may be missing |
| DtsValues.RenderText | tools/dts_semantic_diff.py:89-107 | the printing loop returns the text that `RawText` defines |
| DtsValueRoundTrip.LexValue | tools/dts_semantic_diff.py:89-107 | the printed text of a value whose labels and bare texts are words scans, whatever follows it, to exactly the tokens of its parts, its strings as they decode |
| DtsValueRoundTrip.PrintScanParse | tools/dts_semantic_diff.py:89-107 | for every printable value, print then scan then parse returns the same parts |
| DtsValueExact.ReadsBackExactly | tools/dts_semantic_diff.py:566-649 | a value whose labels and bare texts are words survives print, scan and parse if and only if its numbers are not negative, no label is missing, no bare text is a numeral, its bytes are as stored, its strings supported, no string list or bare text empty, no string list starts like punctuation and no two neighbours merge |
| DtsValueExact.ParsedStrings | tools/dts_semantic_diff.py:629-640 | where no string token holds NUL, the parser makes at most one string of each, so a string taken for punctuation is missing from the value |
| DtsValueExact.PunctuationIsReadAsLabel | tools/dts_semantic_diff.py:581-588 | outside words the condition is not exact: a closing bracket behind an ampersand is a label, and `<&>>` reads back |
| DtsValueExact.OneStringReadsBack | tools/dts_semantic_diff.py:629-640 | a single string survives the round trip if and only if it has no unsupported control character and is not taken for punctuation |
| DtsValueExact.OneNumberReadsBack | tools/dts_semantic_diff.py:56-67 | a single cell survives the round trip if and only if it is not negative |
| DtsValueRoundTrip.AdjacentStringListsMerge | tools/dts_semantic_diff.py:629-640 | two adjacent string lists never survive: they come back as the one concatenated list |
| DtsParser.Parser.SkipUntilAny | tools/dts_semantic_diff.py:298-307 | recovery stops behind the first terminator outside any bracket opened on the way |
| DtsParser.Parser.TakeDirective | tools/dts_semantic_diff.py:381-396 | one directive statement changes the parser state as `ConsumeDirective` says |
| DtsParser.Parser.TakeValueTokens | tools/dts_semantic_diff.py:522-540 | the cursor ends behind the value's semicolon, with an issue per unbalanced bracket |
| DtsParser.Parser.DeclareNode | tools/dts_semantic_diff.py:425-434 | a node is entered once, listed once under its parent, and every repetition is recorded |
| DtsParser.Parser.TakeMember | tools/dts_semantic_diff.py:469-520 | one member of a block moves the whole parser state as the grammar function says, never past the tokens |
| DtsParser.Parser.TakeBlock | tools/dts_semantic_diff.py:452-467 | the mutually recursive block parse terminates on every token list and equals the grammar function |
| DtsParser.Parser.TakeNode | tools/dts_semantic_diff.py:411-450 | one top-level node likewise |
| DtsParser.Parser.TakeStatements | tools/dts_semantic_diff.py:309-321 | the top-level loop ends with every token consumed |
| DtsParser.Parser.CollectLabels | tools/dts_semantic_diff.py:323-332 | the label table and its duplicates are those of the nodes in path order |
| DtsParser.Parser.CollectPhandles | tools/dts_semantic_diff.py:334-351 | the phandle table, in insertion order, and the issues about it |
| DtsParser.Parser.AttachChildren | tools/dts_semantic_diff.py:353-354 | sorted child lists reach their parents; it fails exactly when a listed parent has no node |
| DtsParser.Parser.Parse | tools/dts_semantic_diff.py:309-369 | the whole parse is the tree, or the failure, that `ParseTokens` defines, and the cursor ends at the end |
| DtsParser.ParseDts | tools/dts_semantic_diff.py:652-668 | scan and parse of a text compose |
| DtsSyntaxExact.SyntaxExactly | tools/dts_semantic_diff.py:298-540 | a parsed tree has no issue about the syntax if and only if its tokens divide into statements: directives and semicolons, then one root block or a directive cut off by the end, every member of a block named, every value and every directive ending at its first semicolon outside brackets; its unsupported list is then exactly the directives not understood, in order, at any depth |
| DtsSyntaxExact.OtherSyntaxIsNeverEquivalent | tools/dts_semantic_diff.py:833-857 | with a source whose tokens do not divide so, or that holds a directive not understood, no comparison is EQUIVALENT |
| DtsCaveats.CaveatFreeExactly | tools/dts_semantic_diff.py:833-849 | a parsed tree carries no caveat if and only if its tokens divide into understood statements, no path is repeated, every phandle property is one number, no number has two owners and no label stands on two nodes |
| DtsSyntax.HeaderExactly | tools/dts_semantic_diff.py:411-450 | a header stops at the first `{`, `=` or `;` and names its last word that no colon turned into a label |
| DtsSyntax.SkipExactly | tools/dts_semantic_diff.py:298-307 | skipping goes behind the first semicolon with no bracket open, counted over stretches, or to the end |
| DtsBrackets.ValueExactly | tools/dts_semantic_diff.py:522-540 | a value ends at the first semicolon outside every bracket; each bracket that closes nothing is reported, and so is a missing end |
| DtsBrackets.NestingTexts | tools/dts_semantic_diff.py:302-305 | while skipping, a token nests if and only if it is a stretch of the opening or closing brackets |
| DtsBrackets.JoinPathExactly | tools/dts_semantic_diff.py:543-550 | the path of a child: one slash between parent and name, trailing slashes dropped unless the name is a label reference |
| DtsTables.ParsedTables | tools/dts_semantic_diff.py:323-351 | in every parsed tree a number belongs to the least path whose phandle property is that one number, a label to the least path carrying it, the table stands in path order, and the issues and duplicate labels are exactly the malformed phandles and the later owners |
| DtsDirectives.DirectiveLeavesCaveat | tools/dts_semantic_diff.py:381-396 | a printed source with a directive in front parses to the same tree but for the caveat: none for the three that are understood, its name for any other, and then no comparison is EQUIVALENT |
| DtsShape.FailsExactlyWithoutRoot | tools/dts_semantic_diff.py:353-354 | a parse fails if and only if some node was declared and no root was |
| DtsShape.RepeatedPathsAreReported | tools/dts_semantic_diff.py:425-434 | as multisets, the declared paths are the nodes plus the reported duplicates; each duplicate has an issue |
| DtsShape.ParsedTreeIsWellShaped | tools/dts_semantic_diff.py:411-520 | with clean names every node but the root has its parent in the tree, and every child list is the strictly sorted listing of exactly the nodes under it |
| DtsShape.CleanTreeIsWellShaped | tools/dts_semantic_diff.py:353-369 | the same, with the hypothesis read off the returned tree |
| DtsSource.ScansFile | tools/dts_semantic_diff.py:199-273 | the text printed for a tree of blocks scans to exactly its tokens |
| DtsFile.ParsesFile | tools/dts_semantic_diff.py:309-321 | parsing those tokens enters the blocks one by one and stops at the end |
| DtsFile.PathsDistinctExactly | tools/dts_semantic_diff.py:543-550 | nested blocks get pairwise different paths if and only if no block has two children of one name |
| DtsFile.SourceReadsBack | tools/dts_semantic_diff.py:309-369 | a printed source with distinct siblings, its names any comma-separated words, parses to exactly one node per block, with its labels, one property per last word and the sorted paths of its children, no duplicate path, and the phandle and label tables that the blocks spell: each number with the least path owning it, each label with the least path carrying it |
| DtsFile.RepeatedSiblingsAreReported | tools/dts_semantic_diff.py:425-434 | any printed source parses, and reports no repeated path if and only if its siblings are distinct |
| DtsFile.MissingRootFails | tools/dts_semantic_diff.py:353-354 | the text `a { };` scans, declares a node and then fails for want of a root |
| DtsNames.LastStatementWins | tools/dts_semantic_diff.py:501-517 | the stored property names are the last words of the statements, and each holds the last statement that ends in it |
| DtsNames.NameSurvivesExactly | tools/dts_semantic_diff.py:501-517 | in a tree read back from a printed source the name as written is stored if and only if it is one word; the last word always is |
| DtsNames.FrontWordsAreForgotten | tools/dts_semantic_diff.py:411-520 | sources that differ only in words in front of names parse to the same tree, issues included |
| DtsNames.FrontWordsAreInvisible | tools/dts_semantic_diff.py:860-908 | comparing two such sources lists no difference and no renumbering, and is EQUIVALENT unless the shared tree has a caveat or an unresolved reference |
| DtsNames.VendorIsLost | tools/dts_semantic_diff.py:860-908 | two concrete sources, one property `a,b` and one `c,b`, with different texts, one tree, no issue and the verdict EQUIVALENT |
| DtsCanonical.CanonicalProperty | tools/dts_semantic_diff.py:727-797 | the canonicalising loops return the canonical value and add exactly its unresolved references |
| DtsUnresolved.UnresolvedExactly | tools/dts_semantic_diff.py:727-797 | a comparison lists an unresolved reference if and only if some cell of a common property is a label missing from its own table, the sentinel in a reference position that names no local node, or another number owned by no node opposite a label; any such cell keeps the verdict from EQUIVALENT |
| DtsCanonical.CellValueIsGroupingFree | tools/dts_semantic_diff.py:786-797 | the canonical form of a value made of cells does not depend on its angle-bracket grouping |
| DtsMeaning.ValueMeaning | tools/dts_semantic_diff.py:727-797 | two properties of one name have the same canonical form if and only if they have the same kinds of parts and agree cell by cell on what they name, outside the sentinel trap |
| DtsMeaning.OneCellValue | tools/dts_semantic_diff.py:786-797 | a value made of cells never agrees with one that is not |
| DtsCompareLoops.NodeDifferences | tools/dts_semantic_diff.py:863-881 | the node and phandle passes list each added or removed node and phandle once and nothing else |
| DtsCompareLoops.Renumberings | tools/dts_semantic_diff.py:870-877 | the renumbering table is strictly sorted and lists exactly the common paths whose number differs |
| DtsCompareLoops.PropertyDifferences | tools/dts_semantic_diff.py:883-900 | one common node yields each of its property differences once, and the unresolved references of its common properties |
| DtsCompareLoops.SortDifferences | tools/dts_semantic_diff.py:904 | the final sort keeps the members and is strict, because no two differences share a path and a property |
| DtsReport.ReportIsSorted | tools/dts_semantic_diff.py:904 | the differences stand by path and then by property name, character by character, node entries first |
| DtsReport.ReferenceNamesExactly | tools/dts_semantic_diff.py:681-713 | which property names are taken for references |
| DtsReport.ReferencePositionsExactly | tools/dts_semantic_diff.py:800-809 | which cells of such a property are |
| DtsCompareLoops.CompareTrees | tools/dts_semantic_diff.py:860-908 | the whole comparison lists exactly the differences, renumberings and unresolved references of the two trees, in order |
| DtsCompare.ComparisonIsUnique | tools/dts_semantic_diff.py:860-908 | that description leaves one comparison only |
| DtsCompare.OneDifferencePerKey | tools/dts_semantic_diff.py:904 | two differences with the same path and property are the same |
| DtsCompare.ComparisonIsSymmetric | tools/dts_semantic_diff.py:860-908 | swapping the trees mirrors kinds, values and renumberings and keeps the order of the report |
| DtsCompare.StatusIsSymmetric | tools/dts_semantic_diff.py:833-857 | verdict and unresolved references do not depend on which tree is left |
| DtsReport.StatusExactly | tools/dts_semantic_diff.py:833-857 | each verdict as a condition on the lists of the comparison and of the two trees |
| DtsInvariance.NoDifferenceExactly | tools/dts_semantic_diff.py:860-908 | no difference is listed if and only if the trees have the same nodes, the same nodes with a phandle and agreeing properties |
| DtsInvariance.EquivalentExactly | tools/dts_semantic_diff.py:833-857 | EQUIVALENT if and only if, besides, neither parse left a caveat and no reference is unresolved |
| DtsInvariance.LabelNumberInterchange | tools/dts_semantic_diff.py:671-797 | replacing any local phandle numbers of a property by labels of their nodes, each side with its own label table and any grouping of pure cell values, keeps the canonical form if and only if the sentinel trap is not met |
| DtsInvariance.SentinelTrapHappens | tools/dts_semantic_diff.py:766-768 | a concrete tree and property on which the trap changes the canonical form |
| DtsLabels.LabelsAreInvisible | tools/dts_semantic_diff.py:860-908 | a whole tree against its relabelled spelling, whose label table may be another: no renumbering; no difference if and only if no property meets the sentinel trap, DIFFERENT and incomplete in the trap, and outside it no new unresolved reference and, unless the sentinel is a local phandle, the verdict of the tree against itself |
| DtsLabels.RelabelledIsIndexed | tools/dts_semantic_diff.py:334-351 | spelling references as labels leaves the phandle table alone |
| DtsLabels.LocalSentinelLosesEvidence | tools/dts_semantic_diff.py:756-772 | a concrete property in which a node owns the sentinel number: unresolved against itself, resolved against its label |
| DtsRenumber.RenumberingIsInvisible | tools/dts_semantic_diff.py:727-809 | an injective renumbering of a tree yields exactly the changed numbers as renumberings; no difference if and only if it captures no foreign number, and then the verdict and unresolved references of the tree against itself |
| DtsVerdict.ParsedTreesAreIndexed | tools/dts_semantic_diff.py:334-351 | every parsed tree meets the hypotheses of the renumbering theorem |
| DtsVerdict.ParsedRenumbering | tools/dts_semantic_diff.py:860-908 | the same for every parsed tree |
| DtsVerdict.RenumberedExactly | tools/dts_semantic_diff.py:863-877 | between two parsed trees the renumberings are exactly the common paths shown under different numbers, and the phandle differences exactly the paths shown on one side only, all read off the nodes |
| DtsVerdict.RepeatedPathIsNeverEquivalent | tools/dts_semantic_diff.py:833-849 | a path declared twice on either side keeps the verdict from EQUIVALENT |
| ByteCodec.FieldsReadBack | tools/dtbo_pack.py:28-46 | eight words written at a position are read back from it |
| ByteCodec.PowerOfTwoExactly | tools/dtbo_extract.py:40-41 | a positive number shares no bit with its predecessor if and only if it is a power of two |
| DtboPack.Write | tools/dtbo_pack.py:34-46 | a write at a position leaves the rest of the buffer alone |
| DtboPack.Pack | tools/dtbo_pack.py:17-49 | the successive in-place writes leave exactly header, padded table and payloads in order, or raise what the rules say first |
| DtboPack.PacksExactly | tools/dtbo_pack.py:17-49 | packing succeeds if and only if counts match, header and entries have 32 bytes or more, every entry has four custom words, and every field and the total size fit an unsigned 32-bit word |
| DtboPack.RefusesExactly | tools/dtbo_pack.py:17-49 | each refusal if and only if its cause is the first met: the counts, the sizes, the header's numbers, then the first entry without four custom words or with a number that does not fit |
| DtboExtract.Extract | tools/dtbo_extract.py:25-85 | the validating loop reads only inside the data and reports the first rule broken, or the fields and payloads |
| DtboExtract.ExtractsExactly | tools/dtbo_extract.py:25-85 | it accepts if and only if the data is a container: sound header, payloads that are device trees inside the payload region, no two sharing a byte |
| DtboMeaning.AcceptedWords | tools/dtbo_extract.py:25-85 | acceptance, and every field and payload returned, by the words of the image at their positions |
| DtboMeaning.RefusedWords | tools/dtbo_extract.py:25-85 | each refusal if and only if the words say so: the header first, then the first bad row with the first thing wrong with it |
| DtboExtract.OverlapSharesByte | tools/dtbo_extract.py:74-77 | the interval test decides whether two payloads have a byte in common |
| DtboRoundTrip.PackedExtractsExactly | tools/dtbo_extract.py:25-85 | a packed image is accepted if and only if it has a payload, a power-of-two page size and only device trees; header fields, ids, revisions, custom words and payloads then come back in order |
| DtboRoundTrip.RepackingIsIdentity | tools/dtbo_pack.py:17-49 | repacking what was extracted from a packed image gives the same bytes |
| DtboRoundTrip.DisjointSpansFit | tools/dtbo_extract.py:66-77 | payloads sharing no byte take no more room than the region holding them |
| DtboRoundTrip.ContainerRepacks | tools/dtbo_pack.py:17-49 | whatever the extractor accepts, packed by this tool or not, packs again into no more bytes and extracts to the same template and payloads |
| FdtScan.Find | tools/fdt_scan.py:30-32 | the next magic at or behind the cursor, or proof that there is none |
| FdtScan.Scan | tools/fdt_scan.py:28-50 | the report lists valid device trees only, in order and disjoint, and every valid header not reported starts inside a reported one |
| FdtScan.ScanIsUnique | tools/fdt_scan.py:28-50 | these conditions determine the report |
| FdtScan.HeaderReported | tools/fdt_scan.py:33-49 | ten header words in an image are reported if and only if they start with the magic, hold a size within the limits and the image and a version from 1 to 17, and are clear of the trees in front; the report is the second, sixth and seventh word |
| FdtScan.MagicDoesNotOverlap | tools/fdt_scan.py:33-49 | two occurrences of the magic never overlap, so stepping four bytes past a rejected one skips none |
| ClockArith.TimespecToNs | tools/rmg-eze4/c2_dual_clock_observer.c:202-214 | converts exactly the well-formed times whose nanoseconds fit 64 bits, to their true value |
| ClockArith.SignedDifference | tools/rmg-eze4/c2_dual_clock_observer.c:224-237 | the branchy unsigned arithmetic yields the true signed difference, and exactly when that is within 63 bits |
| ClockArith.DifferenceU64 | tools/rmg-eze4/c2_dual_clock_observer.c:216-222 | a difference exactly when it is not negative |
| ClockArith.Midpoint | tools/rmg-eze4/c2_dual_clock_observer.c:248-276 | the midpoint of two reads lies between them and never overflows |
| ClockObserver.Observe | tools/rmg-eze4/c2_dual_clock_observer.c:1004-1094 | the sampling loop completes exactly when the reads hold a run, and has then emitted that run's metadata, samples and end |
| ClockObserver.RunIsUnique | tools/rmg-eze4/c2_dual_clock_observer.c:1049-1094 | the reads determine the run |
| ClockObserver.SampleExactly | tools/rmg-eze4/c2_dual_clock_observer.c:248-276 | a sample is the truncated middle of the two MONOTONIC reads, the BOOTTIME read between them and their distance |
| ClockObserver.RunExactly | tools/rmg-eze4/c2_dual_clock_observer.c:1049-1094 | a run is a start, samples while BOOTTIME has neither gone back nor passed the duration, one sample where it has, and one more |
| ClockObserver.RecordFields | tools/rmg-eze4/c2_dual_clock_observer.c:620-837 | every number of a record by the clocks of its turn, the turn before and the start, null where the difference would wrap |
| ClockObserver.RecordBootId | tools/rmg-eze4/c2_dual_clock_observer.c:1055-1064 | the boot id of a record is the one its turn read, its status says whether that is the first one, and an unread one is null |
| ClockAnalyzer.Sorted | tools/rmg-eze4/c2_dual_clock_analyze.py:76-81 | ascending, with the same elements |
| ClockAnalyzer.PercentileIndex | tools/rmg-eze4/c2_dual_clock_analyze.py:76-81 | the index is the least with at least 95 percent of the values at or below it |
| ClockMargin.ThresholdExactly | tools/rmg-eze4/c2_dual_clock_analyze.py:143-179 | by counting: the threshold is the larger of 1,000,000 and 8 times the least recorded span with at least 95 percent of the recorded spans up to it plus 16 times the larger positive resolution, and 1,000,000 without a resolution |
| ClockMargin.ReportedThreshold | tools/rmg-eze4/c2_dual_clock_analyze.py:182-430 | that is the threshold every report states |
| ClockPasses.Analyze | tools/rmg-eze4/c2_dual_clock_analyze.py:182-430 | the passes over the records accumulate the report that `AnalyzeResult` defines, error by error and in order |
| ClockVerdict.RaisesExactly | tools/rmg-eze4/c2_dual_clock_analyze.py:302-316 | the analysis raises if and only if the metadata record has null or text for a clock and some point has two integer clocks |
| ClockVerdict.NullClockRaises | tools/rmg-eze4/c2_dual_clock_analyze.py:308-309 | a null metadata clock raises, an absent or a float one in the same records does not |
| ClockVerdict.AffirmativeExactly | tools/rmg-eze4/c2_dual_clock_analyze.py:385-405 | on any records the analysis returns NO_SUSPEND or SUSPEND if and only if the records leave no error of any kind, the caller's parse errors are all of the set-aside family, and cgroup and boot context are known |
| ClockReport.VerdictExactly | tools/rmg-eze4/c2_dual_clock_analyze.py:385-405 | each of the four verdicts on any records: by the errors that spoil the timeline, by the context of every record, and by a rise of the offset over the threshold |
| ClockReport.WarningsExactly | tools/rmg-eze4/c2_dual_clock_analyze.py:320-376 | each warning if and only if some record, or the metadata, shows its cause |
| ClockVerdict.LargeRegressionNeverFires | tools/rmg-eze4/c2_dual_clock_analyze.py:290-300 | that error is in no report the analysis returns |
| ClockTimeline.CleanExactly | tools/rmg-eze4/c2_dual_clock_analyze.py:198-363 | the passes find nothing if and only if the records are a good timeline: arranged, typed, contiguous, with consistent fields, forward clocks, bounded gaps, spans and steps, one boot and a readable cgroup |
| ClockTimeline.GapsTelescope | tools/rmg-eze4/c2_dual_clock_analyze.py:258-276 | up to any record the gaps add up to its clock minus the first, at most half a second each |
| ClockTimeline.AffirmativeCoversTheInterval | tools/rmg-eze4/c2_dual_clock_analyze.py:385-405 | an affirmative report has no error but set-aside parse errors, full cgroup coverage, gaps adding up to the end record's elapsed time and at most half a second per sample and end, and says SUSPEND exactly above the threshold |
| ClockAccepts.GoodRunExactly | tools/rmg-eze4/c2_dual_clock_observer.c:676-837 | the records of a run are a good timeline if and only if there are two samples, valid settings, good clocks and an attended trial |
| ClockAccepts.RunAffirmedExactly | tools/rmg-eze4/c2_dual_clock_analyze.py:182-405 | a run is affirmed if and only if its environment is: clocks forward and within the limits, resolutions positive, boot id stable, cgroup bound, populated and thawed; then no error, and SUSPEND exactly when some offset exceeds the first by more than the margin counted from the spans of its samples |
| ClockAccepts.SlowStartIsAffirmed | tools/rmg-eze4/c2_dual_clock_analyze.py:237-256 | a concrete run whose first pair took twice the pair-span limit is affirmed |
| ZipIndex.Index.Add | tools/safe_zip_ingest.py:203-268 | one member is added or refused as the pairwise rule on the members so far says |
| ZipIndex.LookupsDecide | tools/safe_zip_ingest.py:255-267 | the lookups in the two sets find a collision if and only if some earlier path is a prefix of the new one or the reverse |
| ZipIndex.CheckInfos | tools/safe_zip_ingest.py:368-391 | the loop reports exactly the first problem, or the totals |
| ZipIndex.AcceptsExactly | tools/safe_zip_ingest.py:368-391 | acceptance if and only if paths are pairwise distinct and none is a proper prefix of another, each member has a sound name, sizes within the limits and no more than the permitted multiple of its stored size, and count and sum are within the limits; the totals are the two sums |
| ZipIndex.RefusedExactly | tools/safe_zip_ingest.py:271-295 | each error, the suspicious ratio among them, if and only if the members in front break no rule and the first that breaks one breaks this one |
| ZipIndex.SumsAdd | tools/safe_zip_ingest.py:386-391 | both sums add over any split of the list |
| ZipIndex.OrderDoesNotMatter | tools/safe_zip_ingest.py:386-391 | any permutation of the members is accepted alike with the same total |
| MemberPaths.SafeMemberName | tools/safe_release_extract.py:69-96 | the check, with its prefix-stripping loop, accepts as `SafeName` says; its final normalisation test is redundant |
| MemberPaths.NameAcceptedExactly | tools/safe_release_extract.py:76-96 | a name is accepted as these parts if and only if it is markers `./` and then the parts between slashes, none empty, a dot or two dots, with no backslash, NUL, leading slash or leading tilde |
| MemberPaths.MarkersAreEmpty | tools/safe_release_extract.py:83-86 | the names refused as empty are those of markers alone |
| MemberPaths.AcceptedAgainExactly | tools/safe_release_extract.py:76-96 | an accepted name has plain components only, and is accepted again unchanged if and only if it does not start with a tilde |
| MemberPaths.TildeGetsThrough | tools/safe_release_extract.py:78-84 | a concrete name accepted although its normal form is refused |
| MemberPaths.NormIsWalk | tools/safe_release_extract.py:166-168 | normalising a joined path is walking it from the directory, and it escapes exactly when the walk climbs above the root |
| MemberPaths.NormalizedWalksAlike | tools/safe_release_extract.py:172-175 | the normalised link text walks, from anywhere, to where the link walks |
| MemberPaths.SafeLinkTarget | tools/safe_release_extract.py:158-175 | the check returns the normalised text, or the error, of `SafeLink` |
| MemberPaths.LinkStaysInside | tools/safe_release_extract.py:158-175 | a link is accepted if and only if its text is clean and relative, and its walk from the member's directory never climbs above the root and ends at a proper place; the text handed on ends at the same place |
| Publication.MakeParent | tools/safe_release_extract.py:186-199 | the missing ancestors become directories, nothing else changes; it fails exactly when an ancestor is no directory |
| Publication.PublishOne | tools/safe_release_extract.py:276-287 | one entry is added with its ancestors, exactly when its place is free and its ancestors are directories |
| Publication.OneMore | tools/safe_release_extract.py:269-290 | in depth order a further entry collides if and only if it would put a file or link above another entry |
| Publication.RejectLinkParents | tools/safe_release_extract.py:178-183 | refuses if and only if some member has a link as a proper ancestor |
| Publication.PublishPhases | tools/safe_release_extract.py:269-290 | directories by depth, then files, then links complete if and only if no file or link is above another entry, the sizes fit and links resolve inside |
| Publication.Extract | tools/safe_release_extract.py:337-364 | the extraction completes if and only if, besides, keys are distinct; the tree is then exactly the keys and their proper prefixes |
| Publication.TotalConcat | tools/safe_release_extract.py:281-287 | the total adds over the phases, and counts the bytes of files alone |
| Publication.TreeIsUnique | tools/safe_release_extract.py:215-293 | a list of members has one tree |
| Publication.OrderIsIrrelevant | tools/safe_release_extract.py:269-290 | acceptance and tree depend on the set of members, not on the archive order |
| LinkResolution.LinksResolveInside | tools/safe_release_extract.py:202-212 | in a tree published from members whose links passed the link check, a path below the root, followed through any links in any number of steps, never leaves the root, and where it ends no link is left in it |
| LinkResolution.OnlyLoopsFail | tools/safe_release_extract.py:202-212 | such a path fails to resolve to one place inside if and only if it loops for ever |
| LinkResolution.TwoLinksLoop | tools/safe_release_extract.py:202-212 | two links that name each other loop |
| UnpackWorklist.Unpack | tools/safe_release_extract.py:529-571 | terminates on every finite nesting; when it completes, every reachable archive was expanded once, none failed and none is too deep, and the order is the roots and then the contents of each archive in that order, first occurrences only, never falling in depth; it stops only at an archive whose extraction fails or one at the depth limit that holds another |
| UnpackWorklist.PartIsNeverQueued | tools/safe_release_extract.py:56-66 | a name that marks a partial download has no archive kind, so it is never queued |
| UnpackWorklist.PopCounts | tools/safe_release_extract.py:533-570 | one turn takes one from the queue's count at its depth and adds only at the next, the lexicographic measure |
| UnpackWorklist.ShallowAreHandled | tools/safe_release_extract.py:533-570 | whatever is reachable in fewer steps than the queue's first depth was expanded already |
| ZipTransaction.FillStage | tools/safe_zip_ingest.py:486-531 | the stage holds the members and the manifest exactly when every check agrees and no operation fails |
| ZipTransaction.Attempt | tools/safe_zip_ingest.py:486-540 | stage, members, manifest, recheck and rename as one attempt with every operation allowed to fail |
| ZipTransaction.ExtractArchive | tools/safe_zip_ingest.py:476-545 | under any faults the destination is complete exactly in an undisturbed run and untouched otherwise, in no third state on the way, and a stage stays only if its removal fails |
| ZipTransaction.UndisturbedExactly | tools/safe_zip_ingest.py:486-540 | a run is undisturbed if and only if the archive met is the one recorded, member by member, and no operation fails but the last close or the removal of the stage |
| ReportPublish.Replace | tools/osrc_tree_compare.py:863-875 | backup, replacement and rollback, fault by fault |
| ReportPublish.Publish | tools/osrc_tree_compare.py:832-880 | the output afterwards is the old state or the complete new report; a report that stood there is missing if and only if the move of the new one and the rollback both fail, with the old one still in the backup; after at most one fault the output is the old report or the new one, whole; success exactly when no operation on the way failed |
| ReportPublish.SucceedsExactly | tools/osrc_tree_compare.py:832-880 | success if and only if nothing foreign stands in the output and no operation fails but the rollback and the removal of the stage, or those for an old report when there is none |
| CampaignValidator.CheckTiming | tools/rmg-eze4/analysis/validator.py:149-189 | the timing section raises exactly when its object, a stamp or a field of seconds cannot be read as a number of its range, and reports its errors in order otherwise |
| CampaignValidator.TimingExactly | tools/rmg-eze4/analysis/validator.py:149-189 | it neither raises nor reports if and only if the stamps are integers in order and the derived fields numbers that agree with them within their tolerances |
| CampaignValidator.CheckEvents | tools/rmg-eze4/analysis/validator.py:205-252 | the pass over the events with its running sequence and time raises exactly at an event that cannot be read, and otherwise reports as the pairwise conditions say |
| CampaignValidator.StepsExactly | tools/rmg-eze4/analysis/validator.py:209-252 | it reports nothing if and only if the events are known and bound to the trial, with rising sequence numbers and times over all pairs |
| CampaignValidator.TransitionsExactly | tools/rmg-eze4/analysis/validator.py:191-261 | the section neither raises nor reports if and only if there are two or more events, all read, known, bound and in order, with a spawn in front of every reap |
| CampaignValidator.Validate | tools/rmg-eze4/analysis/validator.py:149-316 | the error list in order, or the exception of the first thing that cannot be read |
| CampaignValidator.ValidExactly | tools/rmg-eze4/analysis/validator.py:149-316 | it returns no error if and only if the record is consistent in timing, event order, confounders and vote, with every field of its type |
| CampaignValidator.RaisesExactly | tools/rmg-eze4/analysis/validator.py:149-285 | the validator raises if and only if a record with every root field has fixed fields, a classification, a stamp, a field of seconds or, among two or more events, an event that cannot be read, or two or more events with a reap and no spawn |
| CampaignValidator.ReapAloneRaises | tools/rmg-eze4/analysis/validator.py:254-261 | a concrete consistent record that raises once its spawn is another event |
| CampaignValidator.NullStampRaises | tools/rmg-eze4/analysis/validator.py:164-171 | with a null start stamp that record raises; the stamp was to be reported as invalid |
| CampaignValidator.OtherStampsDoNot | tools/rmg-eze4/analysis/validator.py:164-174 | an absent, a boolean and a float stamp are read, and only the float is reported |
| CampaignValidator.ValuesRead | tools/rmg-eze4/analysis/validator.py:157-189 | what number each kind of field is read as, and when a float equals an integer |
| JsonValues.LimitIsHalfway | tools/rmg-eze4/analysis/validator.py:174-188 | the integers from which a conversion to a float overflows start halfway between the largest double and the next power of two |
| CampaignAggregator.Screen | tools/rmg-eze4/analysis/aggregator.py:34-58 | the first loop passes if and only if all records are consistent and of different trials, and raises only at a record reached |
| CampaignAggregator.TallyUp | tools/rmg-eze4/analysis/aggregator.py:60-88 | the counters, partitions and lists hold exactly the counts and members they are for |
| CampaignAggregator.SomeFalsified | tools/rmg-eze4/analysis/aggregator.py:104-120 | the grouping loop finds three timeouts of one condition over two boots exactly when there are |
| CampaignAggregator.Aggregate | tools/rmg-eze4/analysis/aggregator.py:27-184 | the imperative aggregator with its early returns computes the declarative rule, and raises exactly where the validator does on a record it reaches |
| CampaignAggregator.OutcomeIsUnique | tools/rmg-eze4/analysis/aggregator.py:27-184 | a list of records has one outcome |
| CampaignAggregator.VerdictIsOrderFree | tools/rmg-eze4/analysis/aggregator.py:27-184 | permuting the records does not change the verdict of the rule |
| CampaignAggregator.OutcomeIsOrderFree | tools/rmg-eze4/analysis/aggregator.py:27-184 | while the validator raises on no record, permuting them does not change what the aggregator returns |
| CampaignAggregator.OrderDecidesWhoRaises | tools/rmg-eze4/analysis/aggregator.py:37-47 | with a raising record and an inconsistent one, the aggregator raises or answers INVALID_EXPERIMENT by their order |
| CampaignAggregator.OrderDecidesOnce | tools/rmg-eze4/analysis/aggregator.py:37-47 | such a pair of records, given |
| CampaignAggregator.CompatibleMeans | tools/rmg-eze4/analysis/aggregator.py:122-184 | COMPATIBLE implies three boots, two valid trials in each boot and condition, and every valid trial a qualifying completion within 2195 s, confounders known and C1 and C2 not present |
| CampaignMeaning.VerdictExactly | tools/rmg-eze4/analysis/aggregator.py:27-184 | by positions, on any outcome that does not raise: INVALID_EXPERIMENT if and only if the records are not empty and some is inconsistent, two are the same trial or the caps are broken; of the admitted rest, INCOMPATIBLE if and only if three valid supervisor timeouts under one condition are not all of one boot, and COMPATIBLE if and only if there are three boots, two valid trials in each boot and condition, and no valid vote but the compatible |
| CampaignMeaning.CapsExactly | tools/rmg-eze4/analysis/aggregator.py:90-102 | the caps are broken if and only if two INVALID records share a boot or three are INVALID |
| CampaignMeaning.TimeoutsExactly | tools/rmg-eze4/analysis/aggregator.py:104-120 | the threshold of timeouts is met if and only if three positions hold timeouts of one condition, not all of one boot |
| CampaignMeaning.SingleTimeoutIsInconclusive | tools/rmg-eze4/analysis/aggregator.py:9 | an admitted campaign with exactly one such timeout is INCONCLUSIVE, whatever the rest of it |
| CampaignAggregator.TwelveGuardIsDead | tools/rmg-eze4/analysis/aggregator.py:153-158 | three boots with full cells already have twelve valid trials |
| ModuleClosure.DedupeList | tools/u11_modules_audit.py:65-72 | the loop keeps the first occurrences |
| ModuleClosure.DedupeKeepsOrder | tools/u11_modules_audit.py:65-72 | of any two values the one met first stays first |
| ModuleClosure.OrdersEqualExactly | tools/u11_modules_audit.py:75-79 | the orders agree if and only if every two common modules stand the same way round in both |
| ModuleClosure.FindMissing | tools/u11_modules_audit.py:109-115 | the nested loops list the missing dependencies by owner and name |
| ModuleClosure.NothingMissingExactly | tools/u11_modules_audit.py:109-115 | the one-step check finds nothing if and only if every module reachable through any chain of hard or soft dependencies is included |
| ModuleClosure.MissingAreDirect | tools/u11_modules_audit.py:109-115 | a gap is listed if and only if an included module depends directly on one that is not |

## Left out

Device trees:

- DtsParser.Parser.Parse: issues, unsupported directives, duplicate paths and duplicate labels are kept in the order found; the source sorts the four lists by their text, and the wording of messages is not part of the model.
- DtsParser.ParseDts: the argument is a text; reading a file, and guessing whether an argument is a path, come before the model.
- DtsShape.FailsExactlyWithoutRoot: blocks nested beyond Python's recursion limit make the parser fail in another way, which is not modelled.
- DtsSyntaxExact.SyntaxExactly: says whether there is an issue about the syntax, not which one or at which line; that is left to `Parse`.
- DtsDirectives.DirectiveLeavesCaveat: one directive in front of the root, with labels, numbers and words behind its name; `SyntaxExactly` is about any directives anywhere, but says nothing of the nodes.
- DtsValueExact.ReadsBackExactly: a label or bare text that is no word, because the parser took it from punctuation, a quoted string or a slash, is outside the statement; `PunctuationIsReadAsLabel` shows one for which it does not hold.
- DtsCompareLoops.CompareTrees: unresolved references are a set of structured messages, where the source sorts their texts; the write-back into the two trees' own `unresolved` lists goes by a textual prefix and is not modelled.
- Case folding and decimal digits outside ASCII; characters are Unicode scalars without normalisation.
- Preprocessor lines and targeted overlays beyond what the parser does with them.
- The Markdown and JSON reports.

DTBO and FDT:

- File reading and writing, hashing, the JSON manifest, and defaults for keys absent from the template.
- DtboPack.PacksExactly: the template's values are integers; a text or another value that Python's `int` refuses raises where it is read.
- An empty image: the memory map of an empty file raises before the scan starts.

Clocks:

- ClockObserver.Observe: parsing `/proc` and cgroup files, detaching, buffering, JSON escaping and a failing close of the output; each turn is an input with its status. Overflow of the sequence counter.
- ClockPasses.Analyze: the CPU-utilisation figures, the trial id and the other report fields that no verdict depends on; nested JSON values in a field, and the reading of the JSON lines.
- ClockVerdict.RaisesExactly: a float clock is a real number, so the overflow of subtracting one from an integer beyond the floating-point range is not modelled, nor is that of the CPU percentage when `100.0` is multiplied by a CPU time, or divided by an elapsed time, beyond that range.
- ClockAnalyzer.PercentileIndex: the fraction 0.95 is the exact 19/20, because binary rounding of the factor is not the point.

Archives:

- ZipIndex.Index.Add: the lexical checks on a single ZIP member name, its Unicode normalisation and case folding: a member carries its canonical components and the first such problem, if any.
- The compression ratio is compared exactly, not as a floating-point quotient.
- Modes, timestamps, hashing, `fsync`, and the limit on the number of members in release archives.
- UnpackWorklist.Unpack: the contents of each output directory and its removal after a failed extraction are not part of the model.
- Publication.Extract: the links for which the resolution test fails are an input; `LinkResolution.OnlyLoopsFail` proves that these can only be loops, and when the library reports a loop is not modelled. Archive reading and kind tests come before the model, and entries are the members it lets through.
- ZipTransaction.ExtractArchive: a destination created by another process between the check and the rename.
- ReportPublish.Publish: whether an existing output was written by the same tool is an input.

Campaign and modules:

- CampaignValidator.Validate: constant identity fields, patterns, the grammar file and payload schemas are one count of problems per record, and flags per event.
- CampaignValidator.RaisesExactly: whether a check of the identity, pattern and field rules raises is a flag of the record, and whether its classification and payloads can be read; the flags are part of the stated condition. A list or object in a numeric field behaves as a text, and NaN and infinite floats are not modelled. The record is an object, as the signature says; the aggregator answers for anything else, and the model counts it as incomplete.
- Times in seconds are real numbers. Reasons and their iteration order are not modelled; the verdict is.
- Parsing `modules.dep`, `modules.softdep` and module metadata.

Parts of the repository outside the five models: the bounds checks on boot images, the snapshot collection and
category matrix of the tree comparison, the generated fingerprint table, the fixed checklists and report
renderers, and the scripts that drive a device or check documents.
