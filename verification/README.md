# Bart, verified

A Dafny model of the parts of this repository that carry the `.bart` policy language and what is decided
and drawn from it, with proofs of what those parts promise. `dafny verify dfyconfig.toml` verifies it.

**The language.** `Lex` is the tokenizer; `Munch` states maximal munch without scanning and shows that the
tokenizer computes it, and where it gives up; `Spelling` says when two texts may be written next to each
other, and `Literals` what a string literal is and means. `Attrs` and `Rule` print attributes and rules, and
`Layouts` says which layout a width gets. `Parse` reads them on an index and `Cursors` is the same parser as
an object with a moving cursor. `Forms` and `RuleForms` describe values, attributes, terms, exchanges,
conditions and whole rules by where their tokens stand, without a parser, and show that the parser accepts
exactly those, also in text that the printer never writes (`Trims` does so for white space). On these rest
the round trips: `RoundTrip` (attributes, exchanges), `Condition` and `Exact` (conditions, which are kept as
text), `TreeRoundTrip` (whole rules), `NormalForm` and `Guard` (the run-time guard of `parseSyntax` and what
it refuses), `Blocks` (the flat model of the editor) and `Meaning` (what an exchange means). `Emitter` and
`Reserved` are the backend's writer and its write gate, `Comments` what stripping removes, `Numerals` numbers
as they are written, `Grammar` the engine's reading of what is written; `Highlight` cuts text into styled
pieces, and `Annotations` says which, and what they show.

**The policy system.** `Order` and `Matcher` are attribute matching in both its ports, `Coverage` the
explanation of a denial, `Closure` the fixed point that collects the parties, `Assembly` the policies and
the blame for a rejected one, `Pool` the bounded pool of workers as interleaved steps, and `Shared` the
scan of shared resources that runs on it with memoised assemblies.

**The trace.** `Forest` is the tree an indented listing stands for. `Trace` builds it on the heap with a
stack that has holes, `Readings` is what the diagram reads around a line, `Diagram` the one long loop that
turns lines into steps, `DiagramLaws` and `DiagramOrder` what that loop keeps on every trace, and `Frames`
and `FrameHeap` the tree of frames, over values and as it is built in place.

Loops and objects are methods and classes proved equal to functions; the laws are lemmas about those
functions, and each function is besides tied to a description that does not use it. What the repository promises but the code does not keep is stated with the exact condition
under which it holds: printing and parsing give a rule back just when its condition is absent or good
(`Condition.GoodCondition`: trimmed, lexed to its end, brackets never closing early, not ending in a
comment), and `TreeRoundTrip.PADDED` is a rule that is lost.

Where code and comments disagree, the code is followed. The comment above `CONTROL_CHAR_BOUNDARY` in
app/backend/src/bart/reserved.ts says that the grammar's strings cannot hold control characters, but both
the lexer and the grammar's `STRING` read them. The lexer ends a comment at a line feed only, the grammar's
`COMMENT` also at a carriage return; `Grammar` says exactly when that shows, and that it never does in an
emitted policy. The comment on `qualifierTailEndingAt` calls it the mirror of `qualifierTail`;
`Highlight.MirrorExact` says exactly when it is.

## Model

| member | source | states |
|---|---|---|
| Lex.Lex | app/frontend/src/lib/bart/lex.ts:54-168 | The loop over the text yields the tokens, with offsets and the end marker, or the first problem, of a scan defined piece by piece |
| Lex.LongestFirst | app/frontend/src/lib/bart/lex.ts:30-48 | The first entry of the punctuation table that the text has at a place is as long as any that it has there, and none is found only where none stands |
| Munch.LexIsMaximalMunch | app/frontend/src/lib/bart/lex.ts:54-168 | A text lexes into given pieces if and only if they concatenate to it, each is a valid token, blank or comment, and none could go on into the next: so there is at most one such split |
| Munch.StoppedExact | app/frontend/src/lib/bart/lex.ts:54-168 | The lexer gives up on a text with a problem at an offset if and only if the text splits that way up to the offset and no blank, comment or token starts there; the problem is an unterminated string just where a quotation mark stands |
| Spelling.AppendExact | app/frontend/src/lib/bart/lex.ts:54-168 | Two texts that each lex, written together, lex to the pieces of the one and then of the other, if and only if the last piece of the first, and a number before a last dot, do not go on into the second |
| Attrs.UnquoteQuote | app/frontend/src/lib/bart/parse.ts:58-61 | Unquoting undoes quoting on every string |
| Literals.LiteralExact | evaluator/bart-parser/src/main/antlr4/com/thesis/bartparser/Bart.g4:133 | A text is one string literal if and only if it is plain characters and escapes between quotation marks |
| Literals.UnquoteExact | app/frontend/src/lib/bart/parse.ts:58-61 | Every literal, also one that no printer writes, is read as its characters, each escape standing for its character unless that ends a line |
| Attrs.SpellsAttrs | app/frontend/src/lib/bart/format.ts:31-43 | Every bag with proper names and numbers prints, and its text lexes to exactly the tokens of its attributes in order |
| Attrs.AttrsTight | app/frontend/src/lib/bart/format.ts:8-43 | A printed bag is the texts of its tokens and not a character more |
| Attrs.EmitsExactly | app/frontend/src/lib/bart/format.ts:27-43 | Printing a bag fails exactly when some attribute of it cannot be printed |
| Rule.BuildGroup | app/frontend/src/lib/bart/rule.ts:91-104 | The loop that collects children collapses nested groups of the same connector and a group of one, as the specification says |
| Rule.GroupNodeNormal | app/frontend/src/lib/bart/rule.ts:86-104 | Grouping normal children always gives a normal tree: two children or more, none of the same connector |
| Rule.GroupNodeId | app/frontend/src/lib/bart/rule.ts:86-104 | Regrouping a normal group changes nothing |
| Rule.SpellsExchange | app/frontend/src/lib/bart/rule.ts:159-183 | On one line or broken, an exchange prints to the same tokens |
| Rule.SpellsLayout | app/frontend/src/lib/bart/rule.ts:185-207 | Both layouts of a rule lex to the same tokens, those of its clauses |
| Rule.SpellsTree | app/frontend/src/lib/bart/rule.ts:191-207 | The text of every width lexes to the tokens of the rule: the layout decision never changes a token |
| Layouts.WidthExact | app/frontend/src/lib/bart/rule.ts:159-207 | A rule prints, at every width, exactly if its keys are names and no words of the language, its numbers finite, and no resource, and no group of terms, is empty. A text that fits the width is on one line and no layout of the rule is shorter; a text that does not fit starts a line with every clause after the first, aligns the parts of each term, and no layout of the rule fits |
| RoundTrip.ParseAttributesBack | app/frontend/src/lib/bart/parse.ts:156-180 | From the tokens of a printed bag the parser reads the same keys and values in the same order, and stops after them |
| RoundTrip.ExchangeBack | app/frontend/src/lib/bart/parse.ts:210-250 | From the tokens of a printed exchange in normal form, however nested, the parser reads that very tree |
| Condition.ConditionBack | app/frontend/src/lib/bart/parse.ts:269-331 | A good condition, between any text before and after it in a rule, is cut out of the source verbatim and stripped of just the printer's parentheses |
| Exact.ConditionExact | app/frontend/src/lib/bart/parse.ts:269-331 | A condition read back unchanged from between the printer's parentheses is good: the condition is necessary |
| TreeRoundTrip.LayoutRoundTrip | app/frontend/src/lib/bart/rule.ts:185-207 | Either layout of a rule parses back to it if and only if it has no condition or a good one; an empty condition comes back as none |
| TreeRoundTrip.RoundTripExact | app/frontend/src/lib/bart/parse.ts:351-424 | For every rule the grammar can express and every width, parsing the printed text gives exactly that rule if and only if it has no condition or a good one |
| TreeRoundTrip.PaddedConditionLost | app/frontend/src/lib/bart/parse.ts:275-331 | A rule whose condition starts with a blank is not read back, at any width |
| NormalForm.ParseTreeNormal | app/frontend/src/lib/bart/parse.ts:351-424 | Whatever parses is a tree in normal form with resources, distinct names for keys, and numbers the printer can write |
| Guard.GuardExact | app/frontend/src/lib/bart/parse.ts:494-513 | The fixed-point guard refuses, of all that parses, exactly a keyword used as a key and a condition that is not good, and returns the rest as parsed |
| Guard.FormatIdempotent | app/frontend/src/lib/bart/parse.ts:499-513 | Format of an accepted text is accepted again, as the same rule but for an empty condition, and formatting it again at that width changes no character |
| Blocks.Flatten | app/frontend/src/lib/bart/parse.ts:257-267 | The loop over a group's children yields its flat group, or fails |
| Blocks.FlattenExact | app/frontend/src/lib/bart/parse.ts:252-267 | Flattening succeeds exactly when no group is nested in the exchange |
| Blocks.NarrowExact | app/frontend/src/lib/bart/parse.ts:252-267 | A group of terms is projected to those terms in order, a lone one under `and` |
| Blocks.TreeOfBlocks | app/frontend/src/lib/bart/rule.ts:140-157 | Widening the blocks of a rule gives the rule back, and its blocks are normalised |
| Blocks.WidenExact | app/frontend/src/lib/bart/rule.ts:140-157 | Widening refuses only an exchange without terms; a lone term stands for itself under either connector, and more make one group, in order |
| Blocks.BlocksOfTree | app/frontend/src/lib/bart/parse.ts:515-527 | Projecting the widening of normalised blocks gives the blocks back |
| Blocks.ToBlocksExact | app/frontend/src/lib/bart/parse.ts:529-549 | On every rule that `parseSyntax` accepts, the second guard never refuses: the projection alone decides |
| Blocks.ParseRuleExact | app/frontend/src/lib/bart/parse.ts:551-555 | A text opens as blocks if and only if it is accepted and mixes no connectors, and the blocks widen to the accepted tree |
| Blocks.BlocksRoundTrip | app/frontend/src/lib/bart/rule.ts:209-212 | Blocks printed at any width parse back to the same blocks if and only if their condition is absent or good |
| Meaning.EvalGroupNode | app/frontend/src/lib/bart/rule.ts:86-104 | Under every valuation of the terms, collapsing groups as they are built changes no value |
| Meaning.TermsGroupNode | app/frontend/src/lib/bart/rule.ts:86-104 | Collapsing keeps every term, in the order written |
| Meaning.NodeOfMeans | app/frontend/src/lib/bart/rule.ts:86-104 | The tree that a derivation stands for is in normal form, holds its terms in their order, and has its value under every valuation |
| Meaning.OrComplete | evaluator/bart-parser/src/main/antlr4/com/thesis/bartparser/Bart.g4:81-85 | Every exchange derived with `and` binding tighter than `or` is parsed to its end, and the tree has the derivation's value under every valuation and its terms in their order |
| Meaning.OrSound | app/frontend/src/lib/bart/parse.ts:227-250 | Whatever the parser takes for an exchange, the grammar derives, from the same tokens and with the same value |
| Forms.ValueExact | evaluator/bart-parser/src/main/antlr4/com/thesis/bartparser/Bart.g4:100-107 | The parser reads a value from one token to another if and only if there stand a lone literal, which is a scalar, or two literals or more with commas between, or any number of them in braces, which are all of them in order |
| Forms.AttributesExact | app/frontend/src/lib/bart/parse.ts:156-180 | Attributes are read from one token to another if and only if there stand names with values, one parenthesis after the other, as many as there are, with no key twice, and at least one where one is needed |
| Forms.OthersExact | app/frontend/src/lib/bart/parse.ts:182-194 | A quantified party is read exactly where `any` or `all` and attributes stand in parentheses |
| Forms.TermSound | app/frontend/src/lib/bart/parse.ts:196-225 | What the parser takes for a term is one: to `me` or others, a resource of at least one attribute, from `requester` or others, in that order |
| Forms.TermComplete | app/frontend/src/lib/bart/parse.ts:196-225 | And every such term is read, to its end |
| RuleForms.ExchangeExact | app/frontend/src/lib/bart/parse.ts:227-250 | An exchange is read from one token to another, as a given tree, if and only if a derivation by the precedence grammar stands there that no connector prolongs, and the tree is that derivation's |
| RuleForms.ConditionExact | app/frontend/src/lib/bart/parse.ts:269-331 | A condition is read, as a given text, if and only if the span up to the first comma or closing parenthesis outside all brackets is not blank, and the text is that span trimmed, less one pair of parentheses where one encloses it all; also where the source has none |
| RuleForms.RuleExact | app/frontend/src/lib/bart/parse.ts:346-424 | A tape of tokens is accepted if and only if it is, from end to end, a rule: its resource, at most one condition, at most one exchange, in that order; and the result is that rule |
| RuleForms.ParseExact | app/frontend/src/lib/bart/parse.ts:346-424 | Parsing succeeds on exactly the texts of rules, written by this system or by hand, and gives the rule that the text denotes |
| Cursors.Cursor.ReadConditionSpan | app/frontend/src/lib/bart/parse.ts:293-331 | The scan that counts depth and remembers the end leaves the cursor at, and returns, the span that the specification finds |
| Cursors.Cursor.ReadAttributes | app/frontend/src/lib/bart/parse.ts:173-180 | The loop over attributes moves the cursor past exactly the attributes it returns |
| Cursors.Cursor.ReadOr | app/frontend/src/lib/bart/parse.ts:246-250 | Recursive descent on the moving cursor agrees with the parser on indices, result and position |
| Cursors.StripParens | app/frontend/src/lib/bart/parse.ts:269-291 | The loop strips one pair of parentheses if it encloses the whole text, and otherwise nothing |
| Cursors.ParseTreeCore | app/frontend/src/lib/bart/parse.ts:346-424 | The parser as the repository runs it returns a rule if and only if the text denotes that rule, as `RuleForms` says; it computes the function that the round trips are about |
| Emitter.StripComments | app/backend/src/bart/emitter.ts:120-154 | The loop with its in-string flag computes the stripping that the laws are about |
| Comments.SegmentsOf | app/backend/src/bart/emitter.ts:120-154 | Every text is a row of characters, closed strings, comments to the end of their line and, at most at its end, a string never closed |
| Comments.StripExact | app/backend/src/bart/emitter.ts:120-154 | Stripping removes from such a row exactly the comments |
| Emitter.StripIdempotent | app/backend/src/bart/emitter.ts:120-154 | Stripping twice is stripping once, on every string, lexable or not |
| Emitter.StripInvisible | app/backend/src/bart/emitter.ts:120-154 | A rule that lexes has the same kinds and texts of tokens after stripping, and no comment is left open |
| Emitter.EmitExact | app/backend/src/bart/emitter.ts:55-100 | The backend writes a bag exactly when its keys and numbers are writable, and then writes the frontend's text |
| Numerals.WritableWhole | app/backend/src/bart/emitter.ts:13-22 | A whole number of either sign is writable just up to 2^53 - 1 |
| Emitter.PartyAttrsCarry | app/backend/src/bart/emitter.ts:109-118 | The party attributes start with the row's own id under `userId`, whatever `userId` the user published; every other key gives what the user published, in that order; and no key stands twice |
| Emitter.PolicyEmitted | app/backend/src/bart/emitter.ts:109-171 | A user has a policy if and only if all published keys and values, a `userId` aside, can be written |
| Emitter.RulesLexAppend | app/backend/src/bart/emitter.ts:160-171 | The tokens of a list of rules are those of each rule, in order |
| Emitter.PolicySpells | app/backend/src/bart/emitter.ts:156-171 | A policy of rules that each lex has the tokens of a header, then of each rule in order, then the closing parenthesis; the header's attributes give the row's own id under `userId`, whatever the user published under that key, and under every other key what the user published, in order and no key twice |
| Emitter.PolicyInjective | app/backend/src/bart/emitter.ts:109-171 | Two users with the same policy text have the same id |
| Grammar.ReadersAgree | evaluator/bart-parser/src/main/antlr4/com/thesis/bartparser/Bart.g4:134 | On a text the frontend lexes, the grammar, whose comments end at a carriage return too, finds the same tokens at the same places if and only if it reads no token in any comment |
| Grammar.StrippedReads | app/backend/src/bart/emitter.ts:120-154 | In a stripped rule the grammar reads exactly the tokens that the frontend reads in the rule, whatever its comments hold |
| Grammar.StripInvisibleToGrammar | app/backend/src/bart/emitter.ts:120-154 | Stripping changes nothing that the grammar reads when it reads no token in any comment |
| Grammar.NoReturnIsSilent | evaluator/bart-parser/src/main/antlr4/com/thesis/bartparser/Bart.g4:134 | As it reads none in a comment without a carriage return |
| Grammar.StripInvisibleExactly | app/backend/src/bart/emitter.ts:120-154 | When no comment holds a quotation mark, stripping is invisible to the grammar if and only if it reads no token in any comment |
| Grammar.LoudIsStripped | app/backend/src/bart/emitter.ts:120-154 | A comment with a carriage return and a parenthesis: the grammar reads the parenthesis, the frontend does not, and stripping removes it |
| Grammar.PolicyRead | app/backend/src/bart/emitter.ts:156-171 | The grammar reads an emitted policy of rules that each lex as that header, with the row's own id and every published attribute, each rule's own tokens in order, and the closing parenthesis |
| Reserved.ValidateAttrs | app/backend/src/bart/reserved.ts:65-112 | The loops of the write gate collect exactly the problems of the attributes, in order |
| Reserved.GateExact | app/backend/src/bart/reserved.ts:8-112 | There is one problem for each attribute that does not fit, in order, naming what is wrong with it first; an attribute fits if its key is a name, no word of the language and no injected name, and its scalars are plain decimals, booleans and strings without quotation mark, backslash or control character |
| Reserved.GateRoundTrip | app/backend/src/bart/reserved.ts:65-112 | Attributes without a problem are written without failing, and the text lexes and parses back to the same keys and values in order |
| Order.SortIgnoresOrder | app/backend/src/bart/matcher.ts:11-16 | Two lists sort to the same list if and only if they are the same multiset |
| Order.LeExact | app/backend/src/bart/closure.ts:56-59 | A string comes before another if it starts it or if, where they first differ, it has the smaller character |
| Matcher.BagsExact | app/backend/src/bart/matcher.ts:7-16 | Comparing sorted keys is comparing multisets of scalars, type and value |
| Matcher.MatchesExact | app/backend/src/bart/matcher.ts:27-40 | A pattern matches if and only if each of its keys is present with an equal scalar or an equal multiset |
| Matcher.PortsAgree | app/frontend/src/lib/bart/match.ts:28-44 | The frontend's port decides every question as the backend does, though its keys are joined by another character |
| Matcher.MatchesReflexive | app/backend/src/bart/matcher.ts:35-40 | Attributes match themselves |
| Matcher.MatchesTransitive | app/backend/src/bart/matcher.ts:35-40 | Matching is transitive |
| Coverage.GapAgainst | app/backend/src/bart/coverage.ts:22-32 | The loop files each key of a resource under missing, conflicting or agreeing |
| Coverage.GapPartition | app/backend/src/bart/coverage.ts:22-32 | Each key is in exactly one of the three, for the stated reason, and nothing blocks exactly when the pattern covers the resource |
| Coverage.GapInOrder | app/backend/src/bart/coverage.ts:22-32 | The keys in the way are listed in the order of the resource's own |
| Coverage.NearestGap | app/backend/src/bart/coverage.ts:34-83 | There is no gap exactly when every resource is covered; otherwise the one reported is best by overlap, agreement, fewest blocking keys and id |
| Coverage.NoFurtherExact | app/backend/src/bart/coverage.ts:60-79 | One resource replaces another as the nearest exactly if that one is not at least as near: more keys shared with the pattern, then more that agree, then fewer in the way, then the id that comes first |
| Coverage.NearestUnique | app/backend/src/bart/coverage.ts:34-83 | With distinct ids the resource reported does not depend on the order they come in |
| Closure.PartyClosure | app/backend/src/bart/closure.ts:12-59 | The worklist ends with the least set that holds the seed and every known user matched by a pattern of a member's policy, as the seed and then the others sorted; each member is analysed exactly once |
| Closure.ClosureUnique | app/backend/src/bart/closure.ts:12-59 | The list is determined by the seed and the links: the order of the index and of the patterns does not show |
| Assembly.AssemblePolicySystem | app/backend/src/bart/assembly.ts:82-144 | Whatever the rows are at the two reads, the parties are the closure over the first, and policy k is the text of party k's row at the second, or of a user of nothing where the row is gone, and belongs to no other user; assembly fails only with the error of some party's own policy at one of the reads |
| Assembly.PatternsAsRead | app/backend/src/bart/assembly.ts:91-120 | The patterns that the closure follows from a user are those of the text of that user's policy at the first read, or of an empty policy where the row is gone |
| Assembly.BuildPolicies | app/backend/src/bart/assembly.ts:122-139 | Every party gets a policy, in its place, with an empty one for a row that is gone |
| Numerals.ValueOfPadded | app/backend/src/bart/assembly.ts:28-30 | Reading a decimal numeral, with zeros in front or without, gives the number it was written for |
| Numerals.PaddedOf | app/backend/src/bart/assembly.ts:28-30 | Every text of digits is a numeral of the number it is read as |
| Assembly.LocationExact | app/backend/src/bart/assembly.ts:13-29 | A number is read from a location if and only if the location is `policy ` and a numeral of that number |
| Assembly.BlameNeverWrong | app/backend/src/bart/assembly.ts:13-31 | However rows were edited between the reads, a location blames nobody, or it is `policy ` and a numeral of some n and blames party n, counted from one |
| Assembly.BlameFindsUnedited | app/backend/src/bart/assembly.ts:13-31 | If party n's row was the same at both reads, `policy ` and a numeral of n blames party n |
| Pool.StepInv | app/backend/src/utils/general.utils.ts:47-70 | Every step of a worker keeps each index below the cursor either held by one worker or done, never both, never twice |
| Pool.FailStep | app/backend/src/utils/general.utils.ts:58 | So does a call that throws |
| Pool.NeverTooMany | app/backend/src/utils/general.utils.ts:41-70 | At every point of every interleaving, at most max(1, min(limit, n)) calls are in flight and no item has been called twice |
| Pool.RunsComplete | app/backend/src/utils/general.utils.ts:47-70 | No run makes more than one step for each item and one for each worker; until every worker is done or rejected some worker can move; and the pool resolves exactly when all those steps were made and no call threw |
| Pool.CompletedResults | app/backend/src/utils/general.utils.ts:47-70 | A completed run called each item exactly once, none of the calls threw, and each index holds what its call returned |
| Pool.ThrowRejects | app/backend/src/utils/general.utils.ts:63-68 | Once a call has thrown the pool is rejected, and nothing that the other workers do later resolves it |
| Shared.StepInv | app/backend/src/bart/shared.service.ts:64-112 | Every step keeps each call on the one memoised system of its owner, and every value returned the verdict of that system |
| Shared.Refines | app/backend/src/bart/shared.service.ts:76-112 | Each step is a step of the pool or leaves it alone, and a system once settled never changes |
| Shared.AssembledOnce | app/backend/src/bart/shared.service.ts:64-74 | At every point no owner has been assembled twice, and the owners assembled are those of the candidates begun |
| Shared.ExactlyPermitted | app/backend/src/bart/shared.service.ts:76-118 | A completed run returns, in order, exactly the candidates whose owner's one system was assembled and on which the engine, given that system, says permitted |
| Shared.OnlyOutagesThrow | app/backend/src/bart/shared.service.ts:79-110 | A call throws only when the assembly or the engine is out; a rejection, of the candidate or of its owner's whole assembly, is returned as a refusal |
| Shared.OutageFailsRun | app/backend/src/bart/shared.service.ts:81-110 | Once a call has thrown for an outage the run can no longer complete, and it ends rejected: an outage is never read as a refusal |
| Shared.NeverStuck | app/backend/src/bart/shared.service.ts:64-112 | Until every worker is done or rejected the run can go on: the memoised promise deadlocks nobody |
| Shared.RunsEnd | app/backend/src/bart/shared.service.ts:64-112 | Every run ends, after at most the steps of the pool, one for each owner's assembly and two for each candidate |
| Forest.KidsAreTiles | app/frontend/src/lib/bart/trace.ts:106-117 | The lines whose nearest earlier shallower line is `p` tile the run of deeper lines after `p` with their own runs; the roots tile the listing |
| Forest.AncestorsEnclose | app/frontend/src/lib/bart/diagram.ts:340-345 | A line's ancestors are exactly the lines whose deeper run it lies in |
| Forest.NextSibling | app/frontend/src/lib/bart/diagram.ts:227-241 | The line after a subtree, if as deep as its root, is the root's next sibling |
| Trace.SplitExact | app/frontend/src/lib/bart/trace.ts:126-131 | Splitting into rows loses nothing and leaves no line break in a row |
| Trace.LinesExact | app/frontend/src/lib/bart/trace.ts:126-137 | The lines are the rows that are not all white space, in order, each with its text trimmed and as depth half the white space before it |
| Trace.FindAncestor | app/frontend/src/lib/bart/trace.ts:106-117 | Past any holes in the stack, the slot found is the last line read that is shallower |
| Trace.PutMirrors | app/frontend/src/lib/bart/trace.ts:146-147 | Storing at the line's depth and cutting the stack there leaves in each slot the line open at that depth, or a hole |
| Trace.ParseTrace | app/frontend/src/lib/bart/trace.ts:119-151 | Every line that is not blank becomes one node, with its number as id, its text, depth, kind and outcome, and as children, in order, the lines that have it as nearest earlier shallower line |
| Trace.FlattenTrace | app/frontend/src/lib/bart/trace.ts:161-168 | Flattening any node's children gives exactly the run of lines below it, in the order read |
| Trace.ReadBack | app/frontend/src/lib/bart/trace.ts:119-168 | Reading and flattening gives back the lines that are not blank, in order, each in a node numbered and classified as it was read |
| Frames.NestLosesNothing | app/frontend/src/lib/bart/frames.ts:31-72 | For every marker stream, rendering the tree gives the stream without stray closes and separators outside frames, and a close without outcome for each frame left open |
| Frames.NestBalanced | app/frontend/src/lib/bart/frames.ts:31-72 | On a balanced stream, rendering the tree gives the stream |
| Frames.RenderNest | app/frontend/src/lib/bart/frames.ts:31-72 | Every well-named tree is the tree of its rendering |
| Frames.NestNamed | app/frontend/src/lib/bart/frames.ts:22-24 | In the tree of every stream, each divider names the operator of the frame it divides, and no leaf is a marker |
| Frames.Terms | app/frontend/src/lib/bart/frames.ts:74-86 | The loop puts each child into the block numbered by the dividers before it, and drops the empty blocks |
| Frames.TermsLoseNothing | app/frontend/src/lib/bart/frames.ts:74-86 | The terms concatenate to the children that are not dividers, and none is empty |
| Frames.TermsSplit | app/frontend/src/lib/bart/frames.ts:74-86 | The terms on the two sides of a divider are the terms of the two sides; without a divider all children are one term |
| FrameHeap.Build | app/frontend/src/lib/bart/frames.ts:31-72 | Built in place, with open frames already in their parents' children, the nodes denote the tree of the stream, in frames that are all new and of which each stands in exactly one place |
| Readings.FindSiblingResult | app/frontend/src/lib/bart/diagram.ts:227-241 | The scan finds the result stated by the first line after it that is not deeper, if that is as deep and a `result:`, and otherwise nothing |
| Readings.FindSubtreeOutcome | app/frontend/src/lib/bart/diagram.ts:243-258 | The scan finds true, or false, just when the last line of the deeper run that states anything states true, or states false or an error; and nothing just when no line of the run states anything |
| Readings.FindParent | app/frontend/src/lib/bart/diagram.ts:340-345 | The scan finds the parent in the tree that the trace was read into |
| Readings.FindAttemptedRule | app/frontend/src/lib/bart/diagram.ts:309-322 | The scan finds the rule that the first line directly below names, of those that name one |
| Readings.FindGrantedRule | app/frontend/src/lib/bart/diagram.ts:324-338 | The scan finds the rule attempted by the last restatement directly below the line |
| Readings.FindRequester | app/frontend/src/lib/bart/diagram.ts:279-297 | The scan finds the requester of the first request ahead, unless a shallower line comes first |
| Readings.SiblingResultExact | app/frontend/src/lib/bart/diagram.ts:227-241 | An outcome is the one read beside a request if and only if it is stated there |
| Readings.SubtreeOutcomeExact | app/frontend/src/lib/bart/diagram.ts:243-258 | An outcome is the one read below a line if and only if it is the last word of its subtree |
| Readings.AttemptedRuleExact | app/frontend/src/lib/bart/diagram.ts:309-322 | A rule is the one attempted if and only if the first line directly below that names a rule names it |
| Readings.GrantedRuleExact | app/frontend/src/lib/bart/diagram.ts:324-338 | A rule is the one that granted if and only if the last restatement attempts it |
| Readings.RequesterAheadExact | app/frontend/src/lib/bart/diagram.ts:279-297 | A requester is the one ahead if and only if the first request from there on, with nothing shallower before it, is theirs |
| Readings.UnderQuantifiedExact | app/frontend/src/lib/bart/diagram.ts:629-632 | A line is under a quantified request if and only if the last earlier line that is shallower is one |
| Readings.MatchedExact | app/frontend/src/lib/bart/diagram.ts:556-578 | The parties listed for a run of candidates are those of the run's lines that state a match, all of them, in order |
| Diagram.BuildDiagram | app/frontend/src/lib/bart/diagram.ts:445-698 | The loop with its mutable state, on every trace, emits the steps that the laws below are about |
| DiagramLaws.InvStep | app/frontend/src/lib/bart/diagram.ts:475-695 | Every turn keeps, together, what `open`, `quantified`, `fan`, `frames` and the steps stand for |
| DiagramLaws.FramesMirrorNest | app/frontend/src/lib/bart/diagram.ts:481-554 | At every turn `frames` is the stack that `nest` has on the steps so far, rule for rule, composite just where not single, and no separator emitted is dropped |
| DiagramLaws.LeftExact | app/frontend/src/lib/bart/diagram.ts:481-495 | A dedent closes single frames only, innermost first, up to the first it is still in, each with the last result noted in it or else the one the line states |
| DiagramLaws.SingleOutcomesAreStated | app/frontend/src/lib/bart/diagram.ts:481-501 | At every turn, the outcome that a dedent closes a single exchange with was stated by a `result:` line after the one that opened it and no shallower, or by the line that closes it |
| DiagramOrder.SingleOutcomesExact | app/frontend/src/lib/bart/diagram.ts:481-501 | At every turn, what a dedent closes was opened by a single exchange, and closes with the last result that a line no shallower stated while that exchange was the innermost frame or, if there was none, with the result of the closing line |
| DiagramOrder.LastNotedExact | app/frontend/src/lib/bart/diagram.ts:497-501 | The result held for a single exchange is the one read by the last turn that read one in it |
| DiagramLaws.OpenIsAncestors | app/frontend/src/lib/bart/diagram.ts:475-479 | Once popped for a line, `open` is strictly increasing and holds the depths of exactly those ancestors of the line that are arrows or merged into one, also across candidates skipped |
| DiagramLaws.DiagramExact | app/frontend/src/lib/bart/diagram.ts:556-694 | Each request to draw, run of candidates with a known asker, and broken cycle is in exactly one step; each such step has the parties its lines state and as level the number of arrows around it; a `policy N:` arrow has the last word of its last line's subtree as outcome, another arrow the result beside it, either one the granting rule just when that is true; and candidates have the asker that the last quantifier calls for and list exactly who matched |
| DiagramOrder.StepsInOrder | app/frontend/src/lib/bart/diagram.ts:475-695 | The steps stand in the order of the lines they come from; every marker carries the policy, operator, rule or outcome of its line; every line that owes a marker has it; and the first lines of the other steps strictly increase |
| DiagramLaws.FanNeverMixes | app/frontend/src/lib/bart/diagram.ts:594-679 | All lines merged into one arrow have one policy, one depth and one quantified request as parent, and the arrow's level |
| DiagramLaws.MergedExactly | app/frontend/src/lib/bart/diagram.ts:634-658 | A `policy N:` line is merged, not drawn as an arrow of its own, if and only if the last such line whose fan no quantifier has closed is of its policy and depth; and then into that line's arrow |
| DiagramLaws.FanIsAnArrow | app/frontend/src/lib/bart/diagram.ts:644-646 | At every turn the fan points to a request step and lists exactly its lines |
| DiagramLaws.QuantifiedEvent | app/frontend/src/lib/bart/diagram.ts:566-627 | The pending quantifier is the last one stated since the last candidates: none explains two runs |
| DiagramLaws.AwaitsExact | app/frontend/src/lib/bart/diagram.ts:574-627 | Candidates are put down to a quantifier if and only if it is the last one before them with no candidates in between |
| DiagramLaws.FanAtExact | app/frontend/src/lib/bart/diagram.ts:594-658 | A fan stands at a line if and only if its line is the last to draw for a policy and no quantifier as shallow came since |
| Highlight.ForwardExact | app/frontend/src/lib/bart/highlight.ts:54-103 | Reading forwards finds a tail if and only if a qualified name with that tail starts there and no dot follows it |
| Highlight.BackwardExact | app/frontend/src/lib/bart/highlight.ts:105-161 | Reading backwards finds a tail at a name if and only if that name is a lone `requester`, or ends a qualified name that no dot leads to and that starts with the first of its groups |
| Highlight.ScannersAgree | app/frontend/src/lib/bart/highlight.ts:54-161 | Both scanners return the same tail on every qualified name that stands free |
| Highlight.MirrorExact | app/frontend/src/lib/bart/highlight.ts:105-161 | What is found backwards, where no dot follows, is found forwards from the start of a qualified name that ends there, if and only if it is not a lone `requester` |
| Highlight.MirrorAsUsed | app/frontend/src/lib/bart/highlight.ts:182-186 | Looking for `userId`, as the scanners are used, the backward one finds exactly the ends of qualified names |
| Highlight.RequesterCompared | app/frontend/src/lib/bart/highlight.ts:182-186 | Left of an `=`, a lone `requester` is a name backwards and none forwards |
| Highlight.ReadTail | app/frontend/src/lib/bart/highlight.ts:61-103 | The loops over balanced groups compute the forward reading |
| Highlight.ReadTailEndingAt | app/frontend/src/lib/bart/highlight.ts:113-161 | The loops over balanced groups, going back, compute the backward reading |
| Highlight.LookUp | app/frontend/src/lib/bart/highlight.ts:264-290 | Looking up an annotation by offset finds the id of that very token or none |
| Highlight.ClassExact | app/frontend/src/lib/bart/highlight.ts:223-239 | Literals are coloured by their kind, and a name just when the language reserves it, participants and operators apart |
| Annotations.IdsExact | app/frontend/src/lib/bart/highlight.ts:31-221 | A string carries a party's id if and only if it is the value of `userId` or compared with a qualified name that ends in it, and a group's if and only if it is looked for in one that ends in `groups` |
| Annotations.HighlightExact | app/frontend/src/lib/bart/highlight.ts:241-302 | Of every text that lexes, each token has its piece, which starts where the token does, has its colour, and shows a name exactly if it carries an id that has one; no other piece is styled |
| Highlight.Highlight | app/frontend/src/lib/bart/highlight.ts:251-302 | The loop yields one piece per token, styled and annotated, and the text between tokens unstyled |
| Highlight.HighlightLosesNothing | app/frontend/src/lib/bart/highlight.ts:241-302 | For every text, lexable or not, the pieces concatenate to the text |

## Left out

- The Java evaluator; of the grammar, only exchanges and the end of comments are modelled. Analysis is a function from policy text to patterns, evaluation an oracle on a system and a candidate.
- Apart from comments, `Grammar` reads as `Lex` does: that the two lexers agree there is not proved, since the generated lexer is not modelled.
- HTTP, the database, schemas and the user interface. Rows are arbitrary at each read.
- Characters are Dafny's: one outside the Basic Multilingual Plane counts once toward the width of a line, where JavaScript counts two units.
- Numbers are their decimal text. Whether JavaScript writes a text back unchanged is a parameter (`js`); NaN and negative zero are not modelled.
- Attribute bags are lists of distinct keys; JavaScript's inherited names such as `constructor` are not modelled.
- Line and column positions and the wording of errors; the parser keeps only whether it succeeds and which of its two kinds of failure it meets.
- `emitRequest`, `emitAttrList` and the context tuple: easy members beside `emitAttrs`.
- `validatePartyPattern`: the same loop as `validateAttrs` without the reserved names.
- `callBlaming`: it words what `userForLocation` finds.
- Sorting compares code points, where JavaScript compares UTF-16 units.
- The patterns that recognise trace lines: `classify` and `readOutcome` are parameters of `ParseTrace`, and in `Diagram` a line is what the patterns read in it.
- Diagram.BuildDiagram: leaves out the cause chip of a step, which the source reads from the lines that the step lists and from its outcome; lanes and rosters are left out too.
- `traceVerdict`, `searchedForParties`, facets, pagination and seeds: easy or presentational.
