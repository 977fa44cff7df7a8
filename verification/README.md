# marpa-tcl runtime and generators: a verified model

Marpa/Tcl is a parser generator. Its generators turn a grammar into tables for a C runtime; its
runtime cuts the input into lexemes, runs the recognizer, and evaluates the parse trees. This project
models eight self-contained algorithms of it and proves what they are for. The recognizer library
itself (libmarpa) is an oracle: what is assumed of it is stated below.

- **Precedence** (`Precedence`, `PrecedenceTrees`, `PrecedenceGrammar`, `PrecedenceLists`,
  `PrecedenceTables`, `PrecedencePrefix`, `PrecedenceAssoc`): priority rules become levelled symbols `E[K]..E[0]`. The parse
  trees of the levelled grammar correspond one to one, with equal yield, to the trees of the old grammar
  in which every operand is as tight as its place demands, for one symbol and for all symbols of a
  grammar; which operands that lets stand where is said of the association alone; the lists of quantified
  rules correspond item for item; and a table of infix operators is unambiguous afterwards. Equality of languages is false: an expression with a loose prefix operator as
  the right operand of a tighter infix one is lost (`PrecedencePrefix.PrefixLost`).
- **Character classes** (`Unicode`, `Utf`, `CharClass`, `RangeMerge`, `ClassCompiler`, `ClassBound`):
  in-place normalisation and complement of range sets, the UTF-8 encoder with its MUTF-8 and CESU-8
  variants, and the merging stack that turns a class into alternatives of byte ranges (ASBR) or of
  surrogate ranges (ASSR).
- **Range refactoring** (`SortedSets`, `RangeRefactor`, `RangeTrees`): the worklist that splits ranges
  with a common start, in the form of the byte generator; the Tcl generator runs the same over
  codepoints. The parses of all symbols correspond one to one, over the same bytes.
- **Rule code** (`RuleCode`, `RuleMeaning`, `RuleMachine`): the 16-bit rule instructions, the generator
  writing them, the setup machine, the strings the rules stand for before and after, the traversal for
  rule data, and the decoding of one rule.
- **Shared tables** (`Selections`, `Masks`): per-rule masks and semantics, coded with sharing, decoded by
  rule, and the in-place removal of hidden children.
- **Lexing** (`Lexing`): gate, lexer and input loop as one engine with rewinds, against the recursive
  longest-match tokenizer, and which of its matches are posted.
- **Locations** (`LocationIndex`, `CharCount`): stepping over the input, the run-length index of
  characters and bytes with its binary searches, when a scan from any place is right, and the two ways
  of counting characters.
- **Values** (`EvalStack`, `EvalLaws`, `References`, `RefCounts`, `HeapEval`): what the valuator's steps
  do to a stack of plain values; what those values say of locations, rules and children; vectors of counted values with recursive release; and the evaluation of parse
  trees on these, which does what the plain one does and keeps every count exact.

Each module is proved on its own. Code that changes state is a class or a method with loops; what it
computes is a function, and the properties are lemmas about that function or invariants of the class.

What is assumed of libmarpa: earley set k+1 has a parse just when the first k bytes are a match, and
set 0 has none; the terminals expected are the bytes that keep a viable prefix; the recognizer is
exhausted when there are none (`Lexing.Oracle`). A sequence rule stands for at least as many items as its
minimum, a separator between each two, and unless it is proper perhaps one at the end
(`RuleMeaning.Tells`). A rule's locations reach from where its tokens begin to where they end
(`EvalLaws.Located`). The valuator's steps come in post-order, with the
result in the slot of the first argument, as c/bocage.tcl:186-197 describes (`EvalStack.Steps`).

Where code and comments differ the model follows the code. The comment at runtime-c/clindex.c:166-168
expects a forward scan to stop inside a character now and then; the assertion behind it fails just
then, which `LocationIndex.Inbound.FindC` states. A forward lookup starts with the trailer count of
wherever the input was read before (runtime-c/clindex.c:276-283); `LocationIndex.Inbound.Find` states for
which counts it goes right. Against doc/marpa_unicode.man:256-266 the complement
of the empty class is not limited to the supplementary planes when asked to be
(`CharClass.SCR.Complement`). The setup machine needs a scratch cell that a grammar of byte ranges
alone does not get (`RuleMachine.Setup.Run`). In each case the model states exactly when all is well.

## Model

| member | source | states |
|---|---|---|
| `Precedence.MapFirst` | slif-precedence.tcl:236-248 | the first occurrence of the symbol becomes one name, all later ones another, the rest stays |
| `Precedence.MapAlter` | slif-precedence.tcl:197-234 | every operand gets the level its position and the association demand, which `PrecedenceAssoc.OperandsDecide` says of the attribute alone; fails just for an unknown association |
| `Precedence.Rewrite1` | slif-precedence.tcl:152-192 | the commands replacing one symbol's rules; fails just when an alternative has an unknown association |
| `Precedence.LevelRhsInjective` | slif-precedence.tcl:197-259 | different right-hand sides of one level stay different |
| `Precedence.RewriteApplies` | slif-precedence.tcl:144-192 | the container refuses none of the commands and afterwards holds exactly the levelled rules, all other symbols untouched |
| `PrecedenceTrees.RankFinds` | slif-precedence.tcl:170-192 | the alternative's new rule sits at its rank behind the spine rule of its level |
| `PrecedenceTrees.LowerDerives` | slif-precedence.tcl:152-259 | an admissible tree, taken down the spine and levelled, is a tree of the new grammar |
| `PrecedenceTrees.LowerYield` | slif-precedence.tcl:152-259 | levelling a tree keeps its yield |
| `PrecedenceTrees.RaiseLower` | slif-precedence.tcl:152-259 | raising a levelled tree gives back the original |
| `PrecedenceTrees.RaiseReturns` | slif-precedence.tcl:152-259 | every tree of the new grammar is the levelled form of an admissible original tree |
| `PrecedenceTrees.TreesCorrespond` | slif-precedence.tcl:152-259 | the two translations are inverse bijections between admissible and levelled trees, with equal yield |
| `PrecedenceGrammar.RewriteSymbol` | slif-precedence.tcl:124-139 | commands for a symbol just when it has a range of precedences and refers to itself |
| `PrecedenceGrammar.RewriteLayer` | slif-precedence.tcl:120-142 | the commands of all symbols that need a rewrite, in order; fails just when one of them has an unknown association |
| `PrecedenceGrammar.SelectedToRewrite` | slif-precedence.tcl:123-139 | the symbols selected are distinct and all need the rewrite |
| `PrecedenceGrammar.GrammarRewrites` | slif-precedence.tcl:144-150 | the container takes the commands of the whole grammar; every symbol then holds what its own rewrite gives it |
| `PrecedenceGrammar.TightKept` | slif-precedence.tcl:152-259 | rewriting one symbol changes nothing about the operands of another |
| `PrecedenceGrammar.GrammarTreesCorrespond` | slif-precedence.tcl:120-259 | for the whole grammar: rewritten trees are, one for one and with equal yield, the old trees tight enough for every symbol rewritten |
| `PrecedenceGrammar.QualifiesIs` | slif-precedence.tcl:124-137 | a symbol is rewritten just when it has a rule below precedence 0 and a rule that refers to it |
| `PrecedenceGrammar.RewrittenIsTight` | slif-precedence.tcl:120-259 | with all symbols looked at, the trees that survive are those tight enough for every symbol of the grammar, rewritten or not |
| `PrecedenceAssoc.OperandsDecide` | slif-precedence.tcl:197-234 | a node of good kids is good just when no operand is looser than the operator and one just as loose stands first (left, or no association) or last (right), or the association is group |
| `PrecedenceAssoc.GroupTakesAll` | slif-precedence.tcl:222-229 | a node of a grouping alternative is good for any good kids |
| `PrecedenceAssoc.Parenthesized` | slif-precedence.tcl:222-229 | with a grouping `( E )`, whatever has a tree after the rewrite has one in parentheses |
| `PrecedenceAssoc.ChainsNest` | slif-precedence.tcl:203-221 | in an operator table the only tree of `a op a op a` nests to the left for left and for no association, to the right for right |
| `PrecedenceAssoc.RulesKeepAttributes` | slif-precedence.tcl:274-288 | of a rule's attributes all survive in G1, with association left, and all but action, mask and association in L0 |
| `PrecedenceAssoc.SpineAttributes` | slif-precedence.tcl:165-183 | spine rules hide themselves in G1 and carry nothing in L0 |
| `PrecedenceLists.ListsAreItems` | slif-precedence.tcl:125-128 | the tree of a quantified rule's list, read as plain rules, is a row of items with its yield |
| `PrecedenceLists.ItemsAreLists` | slif-precedence.tcl:125-128 | and every row of items is such a tree |
| `PrecedenceLists.ListsCorrespond` | slif-precedence.tcl:120-150 | the rewrite of a grammar leaves its quantified rules alone, and its lists are the old ones, item for item rewritten |
| `PrecedencePrefix.PrefixLost` | slif-precedence.tcl:170-233 | with atoms, a left-associative infix operator and a looser prefix one, `a op pre a` has a tree before the rewrite and none after |
| `PrecedenceTables.GoodUnique` | slif-precedence.tcl:170-233 | two admissible trees of an operator table with the same yield are the same |
| `PrecedenceTables.GoodExists` | slif-precedence.tcl:170-233 | every operator expression has an admissible tree, no looser than its loosest operator |
| `PrecedenceTables.TableUnambiguous` | slif-precedence.tcl:170-233 | for atoms and infix operators with one association per precedence, every operator expression has exactly one tree in the rewritten grammar |
| `PrecedenceTables.TableSound` | slif-precedence.tcl:170-233 | the rewritten grammar derives nothing else |
| `Utf.BitsAreBits` | unicode/c/to_utf.c:27-82 | the encoder's shifts and masks, bit for bit, are the divisions and remainders of the model |
| `Utf.EncodeDecode` | unicode/c/to_utf.c:27-82 | under all flags an encoding is bytes that decode to its codepoint (section 3 of RFC 3629) |
| `Utf.EncodeInjective` | unicode/c/to_utf.c:27-82 | no two codepoints encode alike |
| `Utf.SBR.ToUtf` | unicode/c/to_utf.c:27-82 | the buffer holds exactly the encoding (`Utf.EncodingIs`), one byte a cell, within its six cells |
| `Utf.SplitChar` | unicode/c/to_char.c:26-37 | the buffer holds the surrogates, or the codepoint itself |
| `Utf.ToCharFromChar` | unicode/c/to_char.c:26-37 | the surrogates are a high and a low one, and give back the codepoint (section 2.1 of RFC 2781) |
| `Utf.CesuIsPairs` | unicode/c/to_utf.c:54-75 | with the cesu flag the encoding is that of the surrogates without it, for either treatment of \0 |
| `Utf.EncodingIs` | unicode/c/to_utf.c:27-82 | under each of the four settings it is the one byte sequence the setting has: shortest UTF-8, or the two-byte \0, or UTF-8 of both surrogates |
| `Utf.ZeroBytes` | unicode/c/to_utf.c:31-40 | a zero byte occurs only for \0, and under mutf never |
| `CharClass.CanonicalUnique` | unicode/c/scr.c:113-221 | classes with the same members have the same canonical ranges |
| `CharClass.SortUnique` | unicode/c/scr.c:449-468 | the comparison leaves sorting no choice, so any sort gives the same ranges |
| `CharClass.SCR.AddRange` | unicode/c/scr.c:89-100 | one more range, and no longer canonical |
| `CharClass.SCR.Compact` | unicode/c/scr.c:150-215 | two-pointer merging in place: same members, sorted, with gaps |
| `CharClass.SCR.Norm` | unicode/c/scr.c:113-221 | normalisation keeps the members and gives the canonical form |
| `CharClass.SCR.FillGaps` | unicode/c/scr.c:293-318 | the store pointer fills in exactly the gaps |
| `CharClass.SCR.Complement` | unicode/c/scr.c:227-326 | a canonical result with the predicted count; it is the complement if and only if the class is not empty or not restricted to the supplementary planes |
| `CharClass.EmptyComplement` | unicode/c/scr.c:240-249 | the full range, returned for an empty class, is its complement just without that restriction |
| `ClassCompiler.ComplementMeans` | unicode/c/scr.c:227-261 | being the restricted complement means having just the non-members that take two surrogates |
| `CharClass.GapsComplement` | unicode/c/scr.c:258-326 | the gaps are the canonical form of the complement |
| `CharClass.GapsCount` | unicode/c/scr.c:258-275 | the predicted number of ranges is exact |
| `CharClass.ComplementTwice` | unicode/c/scr.c:227-326 | complementing twice gives the normalised class |
| `RangeMerge.ExtendMatches` | unicode/c/asbr.c:176-212 | merging two neighbours matches what the two matched, nothing else, and nothing twice |
| `RangeMerge.DiffersOnce` | unicode/c/asbr.c:215-280 | at most one position allows merging, so the order of the tests is free |
| `RangeMerge.Merging` | unicode/c/asbr.c:214-280 | the tests for each length find the position to extend, if there is one |
| `RangeMerge.BuildWays` | unicode/c/asbr.c:145-212 | the stack matches each sequence in as many ways as codepoints are encoded so |
| `RangeMerge.BuildSettled` | unicode/c/asbr.c:155-212 | no two neighbours on the stack can still be merged, unless a gap closed the first |
| `RangeMerge.MergeState.Merge2` | unicode/c/asbr.c:176-212 | merges the top two, or says they cannot be |
| `RangeMerge.MergeState.Merge` | unicode/c/asbr.c:155-174 | pushes, and merges as long as the top two allow it |
| `ClassCompiler.FeedRanges` | unicode/c/asbr.c:100-114 | the double loop builds the stack of all members' encodings |
| `ClassCompiler.CompileBytes` | unicode/c/asbr.c:83-139 | for all flags the alternatives match exactly the members' encodings, each by one alternative; the class is normalised |
| `ClassCompiler.CompileSurrogates` | unicode/c/assr.c:83-146 | the same for the surrogates of the members |
| `ClassCompiler.BuildExact` | unicode/c/asbr.c:83-139 | exactness of the stack for any injective encoding |
| `ClassCompiler.PairsSpellCesu` | unicode/c/assr.c:83-146 | spelling out the surrogate alternatives gives what the alternatives with the cesu flag match, for either treatment of \0 |
| `ClassBound.RankRises` | unicode/c/asbr.c:215-280 | of two joined neighbours that cannot be merged the second has the higher rank |
| `ClassBound.RangeBound` | unicode/c/asbr.c:100-114 | one contiguous range leaves at most 2n-1 alternatives of length n on the stack |
| `ClassBound.CompiledRange` | unicode/c/asbr.c:83-139 | so the compiled range has at most 2n-1 of length n, and no mergeable neighbours |
| `RangeRefactor.SoundSpans` | gen-common/runtime-c.tcl:681-684 | a symbol split into shorter and shorter ranges derives just the bytes of its range, each in exactly one way |
| `RangeRefactor.AddLiteral` | gen-common/runtime-c.tcl:653-671 | a literal made for a suffix keeps the tables consistent, and its name is new |
| `RangeRefactor.SplitRange` | gen-common/runtime-c.tcl:681-684 | replacing a range by prefix and suffix keeps the tables consistent |
| `RangeRefactor.Refactoring.Collect` | gen-common/runtime-c.tcl:593-615 | the queue and the cover hold the literals |
| `RangeRefactor.Refactoring.SuffixSymbol` | gen-common/runtime-c.tcl:649-678 | the suffix symbol, reused or made and queued; nothing known changes |
| `RangeRefactor.Refactoring.ProcessStart` | gen-common/runtime-c.tcl:622-693 | of the literals with one start just the shortest is left |
| `RangeRefactor.Refactoring.ProcessLeast` | gen-common/runtime-c.tcl:621-645 | starts are processed in strictly ascending order, each once |
| `RangeRefactor.Refactoring.Refactor` | gen-common/runtime-c.tcl:593-694 | terminates; every literal still derives its bytes, each in exactly one way; the range literals left start at different places; alternations go from ranges to strictly shorter ones; all other symbols are untouched, so `RangeTrees.ParsesCorrespond` applies |
| `RangeTrees.WayOnly` | gen-common/runtime-c.tcl:681-684 | the symbol of a range has one parse for every byte of it, and no other |
| `RangeTrees.ParsesCorrespond` | gen-common/runtime-c.tcl:593-694 | every symbol of the old grammar has the same parses after the refactoring as before, one for one and over the same bytes |
| `RuleCode.Rules.Add` | gen-common/runtime-c.tcl:1463-1573 | the instructions, pad, counts, sizes and, if asked for, left sides are those of the rules added; fails just for a right-hand side of 4096 symbols or more |
| `RuleCode.Rules.Start` | gen-common/runtime-c.tcl:1475-1486 | the finished program, with exact counts of instructions, rules and words |
| `RuleCode.LeftsTold` | gen-common/runtime-c.tcl:1463-1473 | without byte ranges the r-th left side listed is that of the library's rule r |
| `RuleMeaning.ExpandMeans` | runtime-c/spec.c:134-213 | a rule stands for just the strings the library is told of for it: minimum, separators, the one at the end, the bytes of a range |
| `RuleMeaning.ExpandAllMeans` | runtime-c/spec.c:41-226 | so it is for all rules of a grammar and every symbol |
| `RuleCode.CmdUnboxes` | runtime-c/marpa_runtime_c.h:252-278 | tag and value unpack from the word they are packed into |
| `RuleCode.RangeUnboxes` | runtime-c/marpa_runtime_c.h:280-281 | both bytes unpack from their word |
| `RuleMachine.CodeIsInstruction` | gen-common/runtime-c.tcl:1488-1573 | the words of a rule read back as its instruction, amid any others |
| `RuleMachine.Setup.Step` | runtime-c/spec.c:75-219 | an instruction adds just its rule's expansion and data; byte ranges fail without a scratch cell |
| `RuleMachine.Setup.Run` | runtime-c/spec.c:41-226 | the setup tells the library of exactly the encoded rules in order, so that every symbol has the same strings as in the grammar, and sets the start symbol; it goes wrong if and only if there is a byte range but no non-empty right-hand side |
| `RuleMachine.RangeAlone` | runtime-c/spec.c:199-204 | a byte range alone is such a program, and any symbol on a right-hand side mends it |
| `RuleMachine.SetupData` | runtime-c/spec.c:333-414 | the traversal for rule data alone gives the same data as the setup |
| `RuleMachine.DataLeadsUpTo` | runtime-c/spec.c:33-36 | the data of every rule leads to its instruction and, for short ones, to the left side's |
| `RuleMachine.DecodeRule` | runtime-c/progress.c:20-79 | rule r decodes to its left side and right-hand symbols, a string of the rule; of a sequence the repeated one |
| `Masks.Remask` | gen-common/remask.tcl:49-61 | the ascending list of just the hidden positions |
| `Masks.KeptIsVisible` | runtime-c/sem_sva.c:281-334 | what a filter keeps is what the mask's flags show |
| `Masks.KeptChosen` | runtime-c/sem_sva.c:281-334 | what a filter keeps stands at just the positions it does not name, in order |
| `Masks.Table.Add` | gen-common/runtime-c.tcl:1255-1274 | the rule is listed under its entry |
| `Masks.Table.Finalize` | gen-common/runtime-c.tcl:1276-1313 | whatever the order of entries, every rule finds its entry, and rules with equal entries share one place; empty ones left out or not |
| `Masks.StillFound` | gen-common/runtime-c.tcl:1297-1312 | coding one more entry loses none coded before |
| `Masks.Decode` | runtime-c/spec.c:267-331 | a rule's entry is decoded, from a single or a per-rule table |
| `Masks.Filter` | runtime-c/sem_sva.c:281-334 | in place: the elements kept, in order, then empty cells; nothing beyond is touched |
| `Masks.AddMasks` | gen-common/runtime-c.tcl:1247-1274 | the entries are the filters of the masks; fails just where a needed mask is missing or empty |
| `Masks.HideChildren` | runtime-c/parser.c:306-312 | of the children of a priority rule with symbols just those stay, in order, whose flag in the rule's mask is false; of other rules all |
| `Lexing.TokenizeIsLongest` | runtime-c/lexer.c:434-473 | the tokenizer's spans lie end to end, each the longest match, and it stops only at the end or where nothing matches |
| `Lexing.PostedDelivers` | runtime-c/lexer.c:496-616 | posted are just the spans some terminal below the lexeme limit matches, in order, each with all such terminals; others are dropped |
| `Lexing.Engine.LexerAcceptable` | runtime-c/lexer.c:303-369 | a new match begins, with the bytes that may start one |
| `Lexing.Engine.FindMatch` | runtime-c/lexer.c:434-473 | the backward search cuts the pending bytes to the longest match, or finds there is none |
| `Lexing.Engine.LexComplete` | runtime-c/lexer.c:415-672 | a match is cut at its longest, posted, and the input rewound behind it; or the lexer fails |
| `Lexing.Engine.LexerEnter` | runtime-c/lexer.c:231-270 | an accepted byte extends the match, and completes it when no byte can follow |
| `Lexing.Engine.LexerFlush` | runtime-c/lexer.c:215-229 | the pending match is completed |
| `Lexing.Engine.GateEnter` | runtime-c/gate.c:68-118 | accepted bytes go to the lexer, the first rejection flushes and steps back, the second fails |
| `Lexing.Engine.GateEof` | runtime-c/gate.c:120-128 | at the end the pending match is completed, perhaps with a rewind |
| `Lexing.Engine.InputStep` | runtime-c/inbound.c:293-302 | each step keeps the input up to the location equal to the spans cut and the pending bytes, and makes progress |
| `Lexing.Engine.InboundEnter` | runtime-c/inbound.c:203-318 | for every input the run ends, cuts exactly the tokenizer's spans, discards included, posts just those that are lexemes with their text and symbols, and fails just when the tokenizer finds no match |
| `LocationIndex.MasksAreRanges` | runtime-c/inbound.c:386-390 | the masks for single, trailing and lead-in bytes are the ranges of the model |
| `LocationIndex.CharLenIs` | runtime-c/inbound.c:386-497 | by those masks, a lead-in with all its trailers is one character, any other byte stands for itself |
| `LocationIndex.RunsJoin` | runtime-c/clindex.c:104-111 | a run starts where the one before it ends, by its length and character count |
| `LocationIndex.EncodesNext` | runtime-c/clindex.c:80-115 | one more character keeps the run table the exact maximal run-length encoding |
| `LocationIndex.Inbound.Update` | runtime-c/clindex.c:80-115 | the index grows by the character at the end, and stays as it is elsewhere; it stays right if that character does start there |
| `LocationIndex.Inbound.OkChar` | runtime-c/inbound.c:478-497 | whether all trailers are there, within the input |
| `LocationIndex.Inbound.Step` | runtime-c/inbound.c:371-472 | from any place the step goes as the next byte and the trailer count have it; from one that resumes, it leads into the right character, to a place that resumes, and keeps the index right |
| `LocationIndex.ScanRight` | runtime-c/inbound.c:371-472 | from inside a character, with any trailer count, every further byte is taken for the right character if and only if the count is that of the trailers to come, or larger with no trailer next after them |
| `LocationIndex.Search` | runtime-c/clindex.c:202-229 | the largest key not above the one looked for |
| `LocationIndex.Inbound.Find` | runtime-c/clindex.c:235-348 | the first byte of a known character; for one not yet known, whatever was read before, the result is right if and only if there is one and the last known place resumes with the count left over. The place is restored, and the trailer count left is that of the character found; whether the scan from the place restored is then right |
| `LocationIndex.Inbound.FindC` | runtime-c/clindex.c:118-232 | the character holding a known byte; past the known ones the result is right if and only if the byte starts a character and the last known place resumes; where it resumes, the lookup fails just for bytes inside a character |
| `LocationIndex.FindInside` | runtime-c/clindex.c:166-168 | on the bytes C3 A9 the lookup of byte 1 fails |
| `LocationIndex.ThereAndBack` | runtime-c/clindex.c:27-28 | looking up a character's location and then the character there gives the character back |
| `LocationIndex.StaleTrailer` | runtime-c/clindex.c:276-283 | jumping back to the last character after its trailer was stepped on makes the scan go wrong |
| `LocationIndex.LargerCount` | runtime-c/clindex.c:276-283 | jumping back with a count too large makes it go wrong just before a stray trailer |
| `CharCount.NumUtfChars` | runtime-c/lexer.c:973-985 | counts characters up to the end of the string |
| `CharCount.StepsAreCodepoints` | runtime-c/inbound.c:371-472 | over encoded text stepping takes one character a codepoint, of the encoder's length |
| `CharCount.CountsCodepoints` | runtime-c/lexer.c:893-985 | the lexer's counter gives the number of codepoints, zero allowed with MUTF |
| `CharCount.CountsEncodings` | runtime-c/lexer.c:893-971 | in any text the lexer's counter takes several bytes for one character just where they are what some codepoint is encoded to |
| `EvalStack.TreeEvaluates` | runtime-c/parser.c:266-361 | a tree's steps leave the slots below alone and put its value, and nothing more, into the slot; they fail just where the tree has no value |
| `EvalLaws.LocationPieces` | runtime-c/parser.c:429-442 | the G1 start is where the node's tokens begin, the G1 end where they end, the G1 length one more than their number |
| `EvalLaws.PiecesNest` | runtime-c/parser.c:429-442 | a child's start and end lie between its parent's; the first child starts, the last ends where the parent does |
| `EvalLaws.LexerPieces` | runtime-c/parser.c:433-439 | start and end are both where the lexer stands, the length is -1 |
| `EvalLaws.IdsTellApart` | runtime-c/parser.c:443-446 | rule ids are equal just for the same rule, left side ids just for rules with the same left side |
| `EvalLaws.NamesMatchIds` | runtime-c/parser.c:443-446 | the names are those of the ids beside them |
| `EvalLaws.LhsIsTold` | runtime-c/parser.c:428 | with the generator's table, the left side id is that of the rule the library was told |
| `EvalLaws.ValuePieces` | runtime-c/parser.c:447 | the value piece holds the values of the children shown, in order |
| `EvalLaws.FirstIsFirst` | runtime-c/parser.c:449-452 | where the first child is asked for, the value is that of the first child shown |
| `EvalLaws.NoValue` | runtime-c/parser.c:449-452 | a tree has no value just when somewhere the first child is asked for and none is shown |
| `References.DropReference` | runtime-c/sem.c:309-322 | dropping the last reference leaves nothing referring to the value |
| `References.StillInUse` | runtime-c/sem.c:242-322 | a release leaves a vector alone if its owner is referred to from outside or not at all, or what is released does not lead to it |
| `References.LayeredKeeps` | runtime-c/sem.c:242-322 | where no value is inside itself, directly or not, what a vector holds never leads to its owner |
| `References.NothingLeaks` | runtime-c/sem.c:242-322 | with no references outside, and no vector inside itself, no value is left |
| `RefCounts.Heap.Ref` | runtime-c/sem.c:298-307 | one more reference |
| `RefCounts.Heap.Unref` | runtime-c/sem.c:242-322 | counts stay exact through the whole recursive release, which ends; nothing referred to is destroyed, nothing unreferred is left, and nothing changes that the value does not lead to |
| `RefCounts.Heap.SvaFree` | runtime-c/sem_sva.c:94-111 | all references of the vector are released, and nothing changes that they do not lead to |
| `RefCounts.Heap.Push` | runtime-c/sem_sva.c:113-129 | on any vector the element is added and counted, the capacity doubled when needed |
| `RefCounts.Heap.Pop` | runtime-c/sem_sva.c:131-144 | the last slot is emptied and released with exact counts, on any vector; the vector stays unless the slot leads back to it |
| `RefCounts.Heap.Clear` | runtime-c/sem_sva.c:146-162 | all slots are emptied and released |
| `RefCounts.Heap.Set` | runtime-c/sem_sva.c:180-200 | the slot changes hands, the new value counted before the old one is released; the vector stays unless the old one leads back to it |
| `RefCounts.Heap.SetFill` | runtime-c/sem_sva.c:202-251 | as set, with nulls up to the slot |
| `RefCounts.Heap.SetTrunc` | runtime-c/sem_sva.c:253-279 | as set, and the slots behind are released |
| `RefCounts.Heap.Filter` | runtime-c/sem_sva.c:281-334 | the elements kept move down in order, those dropped are released, counts stay exact |
| `RefCounts.Heap.Copy` | runtime-c/sem_sva.c:336-370 | the slots are appended and counted |
| `RefCounts.Heap.Dup` | runtime-c/sem_sva.c:372-382 | a new vector with the same elements, counted |
| `RefCounts.Heap.ConsVecCp` | runtime-c/sem.c:110-229 | a new value owning such a copy |
| `RefCounts.Heap.DestroyFloating` | runtime-c/sem.c:242-252 | a value never referred to is destroyed with all it held |
| `HeapEval.StillRepresents` | runtime-c/sem.c:242-322 | whatever survives a change elsewhere stands for the value it stood for |
| `HeapEval.TakeChildren` | runtime-c/parser.c:302-312 | the scratch vector holds the arguments, less the hidden ones, in order |
| `HeapEval.GetSv` | runtime-c/parser.c:396-458 | the pieces stand for the rule's value, of which `EvalLaws` says what they are, one piece for each key, shared where the key comes again; for a first child the half-made value goes and the child stays; fails just when there is no first child |
| `HeapEval.RunRule` | runtime-c/parser.c:287-331 | a rule's step leaves what the step on plain values leaves, the scratch vector empty, all counts exact |
| `HeapEval.RunStep` | runtime-c/parser.c:279-357 | so do the other steps |
| `HeapEval.Evaluate` | runtime-c/parser.c:266-361 | the steps of a tree leave one value, standing for the tree's meaning; they fail just when it has none |
| `HeapEval.Complete` | runtime-c/parser.c:238-379 | each tree gives the caller a value standing for its meaning and a reference to it, up to the first tree without one; once the vectors are freed all values given, and all else referred to from outside, still stand for the same, with exact counts and the store as it was |

## Left out

- libmarpa: grammar, recognizer, bocage and valuator are not part of this model, beyond what is assumed of them above.
- The two layers of a grammar (slif-precedence.tcl:123): each is a grammar of its own, rewritten alike.
- What the attribute `special hide` of spine rules does to values: trees are compared, not their semantics.
- Freshness of the generated names `E((n))`: assumed, as the code does; they are a constructor of their own.
- Linked stack cells of the merging state (unicode/c/asbr.c:163-212): the stack is a sequence field; cell allocation and reuse are not modelled.
- The surrogate compiler's own copy of the merging stack (unicode/c/assr.c:152-249): it is the same code for lengths 1 and 2, so both compilers share one model.
- `qsort` (unicode/c/scr.c:136): any sort, by `CharClass.SortUnique`.
- Case folding and named classes: generated tables, not part of this model.
- CharClass.SCR.Complement: requires a class restricted to the supplementary planes to lie in them, as doc/marpa_unicode.man has it; outside them the code's gap filling is not modelled.
- The symbol names of the refactoring's suffixes over codepoints (gen-common/runtime-tcl.tcl:190-215): `CHR` and `RAN` instead of `BYTE` and `BRAN`; the algorithm is the same.
- Mapping symbols to ids (gen-common/runtime-c.tcl:1629-1688): rules come with ids. Ids below 4096 are a precondition; the generator's check for the parser's symbols tests the lexer's count (gen-common/runtime-c.tcl:391).
- Assertions of symbol ids against the symbol table (runtime-c/spec.c:97, 130): ids come from the table.
- The rule data as a flat stack of numbers: it is a list of pairs.
- Comments and display columns of the generated tables, chunking and formatting: text only.
- The 16-bit limit on table sizes (gen-common/runtime-c.tcl:419-427): entries are unbounded here.
- Lexing: events, stop markers, secondary inputs, zero-length lexemes, character locations and the parser's side of a lexeme; the branch for the end of extended input (inbound.c:277-291) is dead without secondary input.
- Location index: negative lookups. The moves themselves are not modelled; whatever place and trailer count they leave, the lookups are stated for it.
- LocationIndex.Inbound.Find: a scan that runs past the input fails in the model; the code reads on behind its end.
- LocationIndex.Inbound.FindC: likewise.
- Quantified rules as such: `PrecedenceLists` reads them as the plain rules they stand for. A list that may be empty, or end with a separator, is one more plain rule above such a list.
- HeapEval.Complete: the search for the last location with a parse is not modelled, nor a caller that keeps some of the values only.
- Heap layout of values and vectors in `RefCounts`: values and vectors have identities in two maps in place of addresses, and a freed identity is not used again.
- RefCounts.Heap.Copy: requires a capacity above zero, since doubling zero never ends; the code's vectors that grow start with ten.
- RefCounts.Heap.Set: counts the new value before it is stored, where the code stores it first; nothing happens in between.
- RefCounts.Heap.Clear: requires that what it releases does not lead back to the vector, as it goes on using it (`Outlasts`); a vector inside itself, its owner not referred to from outside, is the one case left out. Push, Pop, Set, SetFill and Copy are stated for every vector.
- RefCounts.Heap.SetTrunc: likewise.
- RefCounts.Heap.Filter: likewise.
- Tracing, aborts, memory allocation failure, Tcl objects and error texts.
