# Verified models of the Pony compiler's literals, grammar printer, lexer and syntax tree

This project models, in Dafny, the parts of the Pony compiler's `src/libponyc/ast` whose correctness rests on
careful algorithms, and two components of the test framework vendored under `lib/gtest`. Code that updates objects is
modelled by classes and methods with loops; each is proved against a specification that is stated without it.

- **128-bit literals** (`Words`, `Shifts`, `LexInt`, `LexIntMul`, `Binary64`, `LexIntDouble`). A literal is two 64-bit
  words and a sign flag; its value is the 128-bit word, less 2^128 when the flag is set. Every routine is proved against
  integer arithmetic, also when the destination is one of the operands: carries and borrows, shifts across the words,
  shift-and-add multiplication, restoring division, the exactness of the overflow tests of `lexint_accum`, and the
  conversion to a double, which is proved to be *the* nearest double with ties to even. A value `v` that does not fit is
  stored modulo 2^128 with the sign of `v` (`LexInt.Holds`), so `Holds(v)` gives the exact value exactly when
  -2^128 <= v < 2^128. A flag on zero bits stands for -2^128, which is not a valid representation.
- **Grammars** (`BnfGrammar`, `BnfSimplify`, `BnfPreserve`, `BnfOrder`, `BnfSettle`, `BnfLimits`, `BnfHeavy`,
  `BnfAntlr`, `BnfPutBack`, `BnfTended`, `BnfRest`, `BnfTree`). Rules denote the least solution of their equations over
  sets of token strings. Besides, a rule orders two words when it derives them alike but at one choice, where the first
  takes an earlier alternative; this depends on the order of the alternatives and on nothing else that the languages do
  not say. As long as no rule to be inlined leads back to itself, simplification is proved to keep what every rule
  matches and what it orders, and to end, in normal form, if and only if lone references never form a circle. Moving
  alternatives into rules of their own is proved to keep the language of every rule that was there, and to be undone by
  putting the bodies of the new rules back. The two are put together for grammars as they are built.
- **Lexer** (`TokenText`, `TextLayout`, `LexCursor`, `LexNumber`, `LexLiteral`, `LexQuoted`, `LexLost`, `LexWords`,
  `LexNext`, `LexRun`, `LexWritten`, `LexSpellings`, `LexStretch`, `LexSource`). The growing token buffer, UTF-8, the
  in-place removal of common indentation, and all of `lexer_next`: nested comments, numbers, string and character
  literals with their escapes, keywords, identifiers and symbols. What the next token is, and how much of the source it
  takes, is a function of the text; the methods are proved to return that token, to get on with every call, and to give
  it the line and the column at which it begins. That function is in turn proved to undo writing: a source written from
  any tokens, with blanks and comments between them, is read as those tokens, each of them first of its line just if it
  should be (`SourceReadsBack`).
- **Syntax tree** (`AstForest`, `AstCopy`, `AstTree`, `AstEdit`, `AstSplice`, `AstReorder`). Nodes are heap objects with
  parent, child, sibling and type pointers and an orphan flag. A ghost `Forest` says what the pointers stand for: each
  node's list of children, its type, and the node it hangs from. Every editing routine takes a well-formed forest that
  the pointers are in accordance with (`WellFormed(f) && Linked(f, {})`) and yields another, which its contract names
  exactly.
  So every run of the routines keeps every list of children finite, free of cycles and ended by null, every listed
  node non-orphan with the right parent, every unattached node without siblings, and no node in two places.
- **Test framework** (`Regex`, `TestShuffle`, `TestOrder`). The backtracking matcher of simple regular expressions
  is proved against what the expressions mean; registration, shuffling, running and unshuffling of test cases are a class
  whose invariant holds over every sequence of calls.

## Where the code does not do what one would expect

Each of these is stated by lemmas or postconditions that say exactly when the code does what it should.

- The native `lexint_mul64` leaves the sign flag set on zero bits when a negative number is multiplied by zero: the
  product is held if and only if the multiplier is not zero or the number is not negative (`Mul64Native`, and for
  `lexint_mul` on top of it `MulNative`). The portable loop has no such case.
- The portable `lexint_div64` by 1 drops the sign of a negative dividend: it is truncating division if and only if the
  divisor is not 1 or the dividend is not negative (`Div64`). The native one is right for every divisor but zero
  (`Div64Native`). `lexint_div` divides magnitudes, and is always right.
- For a base of at least 1 the two variants of `lexint_accum` agree on non-negative numbers, and on a negative number if
  and only if both refuse it (`VariantsAgree`). For a negative number v the portable one accepts a digit if and only if
  the base is at least 2 and v * base + digit >= v (`PortableAppended`, `Accum`); the native one looks at the bits only,
  and accepts if and only if (v + 2^128) * base + digit is below 2^128 (`NativeAppended`, `AccumNative`). Appending the
  digit 9 to -1 in base 10 is accepted by the portable one alone (`VariantsDiffer`).
- `bnf_simplify` copies a rule marked for inlining that refers to itself below the root of its body while that body
  is half edited, and the language changes (`SelfInliningChangesLanguage`). If no rule marked for inlining leads back to
  itself through references in the grammar as it is given, no run of any length comes into that situation, and all
  languages are kept (`RunPreserved`).
- A pass replaces rules that are nothing but references to one another, in a circle, by one another, and so does the next,
  for ever (`LoneReferencesNeverSettle`); a grammar in which such a circle comes to be never comes to rest, whatever else
  it is (`NoRestInCircles`). If no rule to be inlined leads back to itself there is no other way of not coming to rest:
  the loop of `bnf_simplify` ends if and only if no such circle ever comes to be (`RestsIff`). Another condition, which
  can be looked up in the grammar, is sufficient (`SettlesRests`) and not necessary (`CircleRests`).
- Simplification may leave a repetition of nothing under a rule that never matches, and the walk that moves alternatives
  out then fails one of its assertions, that a repetition has a child or that alternatives in it are not none
  (`LeftoverUnfilled`). For grammars as they are built this happens if and only if a rule that never matches is left like
  that (`SimplifyAndAvoid`).
- `lex_integer` counts digits in 32 bits, so a numeral whose number of digits is a multiple of 2^32 is taken for empty
  (`LexInteger`, `ZerosCountedOut`).
- An escape consumes the backslash and the next character together, and `consume_chars` counts a newline only as the
  first of what it consumes. So a newline within a string or character literal is missed if and only if an odd number of
  backslashes stands right before it (`StringMisses`, `CharMisses`); the line is short of just the newlines missed
  (`Lexer.Valid`), and a token has the position at which it begins if and only if none has been missed before it
  (`Tokenise`). From an escaped newline on no position is right (`EscapedNewlineMissed`, `AfterEscapedNewline`).
- A literal that is not closed and after which the source ends in an odd number of backslashes makes the escape consume
  one character more than there is, which an assertion forbids and without which the length wraps around
  (`StringMisses`, `CharMisses`, `TrailingBackslashOverruns`, `AtTrailingBackslash`). In a source in which no backslash
  is last or stands before a newline neither happens (`LexerNext`, `SoundLosesNothing`); that is not necessary
  (`EscapedBackslash`).
- Bytes above 127 in a character literal are negative where `char` is signed, which is what is modelled, and are passed
  over like bad escapes (`CharAt`).
- `normalise_string` looks for a leading newline in bytes it may have just trimmed away. This goes wrong, with the length
  wrapping around below zero, if and only if the text begins with CR LF, has no line with anything but blanks and line
  ends, and no line that is a bare newline (`LeftoverNewlineExactly`, `LoneNewlineIsLeftOver`); never in a text without
  carriage returns. `Normalise` says whether it does. A blank line no longer than the margin disappears together with its
  newline (`ShortBlankLineVanishes`).
- An empty first line is promised to go, and just that. If it ends in CR LF and the margin is two or more, the margin
  takes both bytes, and a second empty line goes as well: only the first goes if and only if the margin is less than two
  or the lines below do not begin with an empty one (`EmptyLineGoes`).
- The states of the random generator are odd and even in turn, so that the numbers drawn from an even number of places
  are all odd or all even (`EvenDrawsAgree`). An order of four elements comes of some state of the generator if and only
  if its choices from four and from two places agree in parity, which half of the orders do (`HalfTheOrders`); four tests
  are never run in the order third, second, fourth, first (`NeverInThisOrder`). Each single place can be drawn
  (`EveryPlaceDrawn`).
- Comments in the test framework promise listeners the actual order of the test cases, but the accessor they use ignores
  the shuffled places. Listeners are shown the order of a shuffled iteration if and only if every number its seed draws
  picks the last place of what is left to shuffle (`ListenersSeeOrder`, `RunOnce`); with two cases and seed 1 they are
  not (`ListenersMisled`).

## Model

| member | source | states |
|---|---|---|
| LexInts.LexInt.Valid | src/libponyc/ast/lexint.c:22-43 | a representation is valid exactly when its value lies strictly between -2^128 and 2^128, that is, the sign flag is not set on zero bits |
| LexInts.LexInt.Holds | src/libponyc/ast/lexint.c:124-145 | a stored result has the exact value if and only if that is at least -2^128 and below 2^128, and is then valid unless it is -2^128 |
| LexInts.Zero | src/libponyc/ast/lexint.c:15-20 | all bits and the sign are cleared |
| LexInts.Cmp | src/libponyc/ast/lexint.c:22-43 | comparison is the order of the integers the operands stand for, negative ones included |
| LexInts.Cmp64 | src/libponyc/ast/lexint.c:45-60 | comparison with a 64-bit word is the order of the integers |
| LexInts.ShiftLeft | src/libponyc/ast/lexint.c:62-82 | for every shift count the bits are multiplied by 2^b modulo 2^128, the destination may be the operand, the sign is kept below 128 |
| LexInts.ShlJoin | src/libponyc/ast/lexint.c:62-82 | the five word-wise cases of the left shift all compute the one product modulo 2^128 |
| LexInts.ShiftRight | src/libponyc/ast/lexint.c:84-104 | for every shift count the bits are divided by 2^b, rounding down |
| LexInts.ShrJoin | src/libponyc/ast/lexint.c:84-104 | the five word-wise cases of the right shift all compute the one quotient |
| LexInts.SetBit | src/libponyc/ast/lexint.c:114-122 | 2^b is added exactly when the bit was clear, and the sign is kept |
| LexInts.Char | src/libponyc/ast/lexint.c:292-296 | the number is moved up by a byte and another put below it, modulo 2^128 |
| LexInts.SignsDropOut | src/libponyc/ast/lexint.c:124-173 | sums and differences of the unsigned words equal those of the signed values modulo 2^128, so signs do not matter to the bits |
| LexInts.Add | src/libponyc/ast/lexint.c:124-145 | the carry between the words makes the bits the sum modulo 2^128; for valid operands the signed sum is held; aliasing is allowed |
| LexInts.Add64 | src/libponyc/ast/lexint.c:147-162 | the same for a 64-bit operand |
| LexInts.Sub | src/libponyc/ast/lexint.c:164-173 | the signed difference is held, also when the destination is an operand |
| LexInts.Sub64 | src/libponyc/ast/lexint.c:175-180 | the signed difference with a 64-bit word is held |
| LexInts.Negate | src/libponyc/ast/lexint.c:460-466 | the negated value is held, so that negation of valid representations is an exact involution |
| LexIntMul.Mul64 | src/libponyc/ast/lexint.c:198-219 | the portable shift-and-add loop is multiplication modulo 2^128, and holds the signed product whenever the product is above -2^128 |
| LexIntMul.Mul64Native | src/libponyc/ast/lexint.c:198-203 | the native product has the same bits; the signed product is held if and only if the multiplier is not zero or the number not negative |
| LexIntMul.SumOfPartials | src/libponyc/ast/lexint.c:205-218 | one step of the loop: the partial product for the lowest bit left adds up to the product with one more bit, and no intermediate negative result collapses to zero |
| LexIntMul.Mul | src/libponyc/ast/lexint.c:183-196 | the signed product is held for multipliers of magnitude below 2^64 and products above -2^128, and its low 128 bits are right always |
| LexIntMul.MulNative | src/libponyc/ast/lexint.c:183-203 | on the native product the same is held if and only if the multiplier is not zero or the number not negative |
| LexIntMul.BringDown | src/libponyc/ast/lexint.c:273-284 | one step of restoring division: bringing down a bit and subtracting if possible keeps quotient and remainder right, and the remainder below the divisor |
| LexIntMul.DivideBits | src/libponyc/ast/lexint.c:258-284 | the loop from bit 127 down to 0 computes the quotient of the 128-bit word by any divisor of at least 2 |
| LexIntMul.Div64 | src/libponyc/ast/lexint.c:243-290 | portable division by a word truncates toward zero if and only if the divisor is not 1 or the dividend not negative; division by zero gives zero |
| LexIntMul.Div64Native | src/libponyc/ast/lexint.c:243-256 | native division by a word other than zero truncates toward zero for every valid dividend |
| LexIntMul.Div | src/libponyc/ast/lexint.c:222-241 | signed division truncating toward zero for every valid dividend and divisors of magnitude below 2^64, zero for a zero divisor |
| LexIntMul.TruncatedSigns | src/libponyc/ast/lexint.c:222-241 | dividing magnitudes and setting the sign when the signs differ is division truncating toward zero |
| LexIntMul.OverflowTestsExact | src/libponyc/ast/lexint.c:298-336 | dividing the product back and comparing the sum for wrap-around detects overflow of n * base + digit exactly |
| LexIntMul.Accum | src/libponyc/ast/lexint.c:298-336 | for a non-negative number and base of at least 1, true is returned if and only if n * base + digit is below 2^128, which is then the number; for every valid number, negative ones included, the outcome is the one stated for the portable form; otherwise it is unchanged; digits need not be below the base |
| LexIntMul.AccumNative | src/libponyc/ast/lexint.c:298-312 | the native variant has the same test on the bits and the same result, whatever the sign flag |
| LexIntMul.VariantsAgree | src/libponyc/ast/lexint.c:298-336 | the two variants come to the same on a valid number if and only if it is not negative or both refuse |
| LexIntMul.VariantsDiffer | src/libponyc/ast/lexint.c:298-336 | the digit 9 appended to -1 in base 10 is accepted by the portable variant and refused by the native one |
| Binary64.RoundingUnique | src/libponyc/ast/lexint.c:358-416 | at most one encoding is nearest with ties to even (section 4.3.1 of IEEE 754-2008), so the specification determines the result |
| Binary64.Increasing | src/libponyc/ast/lexint.c:358-416 | larger encodings below infinity stand for larger numbers (section 3.4 of IEEE 754-2008), subnormal and normal alike |
| Binary64.NearerNeighbour | src/libponyc/ast/lexint.c:358-416 | choosing the nearer of the two encodings around a number, and the even one at a tie, beats every encoding there is |
| LexDouble.CountLeadingZeros | src/libponyc/ast/lexint.c:341-356 | the halving probes count exactly the leading zero bits of a word |
| LexDouble.KeptSticky | src/libponyc/ast/lexint.c:384-398 | testing by shifting back whether anything was lost gives two bits below the significand that decide the rounding as all dropped bits would |
| LexDouble.RoundHalfEven | src/libponyc/ast/lexint.c:400-404 | setting the lowest bit when the significand is odd, adding one and shifting by two rounds to nearest with ties to even |
| LexDouble.Neighbours | src/libponyc/ast/lexint.c:358-416 | keeping 53 bits of a larger number gives the encoding just below it, and the dropped bits are its distance from there |
| LexDouble.RoundedDouble | src/libponyc/ast/lexint.c:400-416 | rounding the kept bits, also when the significand carries out into the exponent, gives the correctly rounded encoding |
| LexDouble.ExactDouble | src/libponyc/ast/lexint.c:371-375 | numbers of up to 53 bits are converted exactly |
| LexDouble.ToDouble | src/libponyc/ast/lexint.c:358-416 | for every 128-bit word the result is the finite binary64 encoding of the word rounded to nearest, ties to even |
| BnfGrammar.LanguagesFixpoint | src/libponyc/ast/bnfprint.c:156-185 | the languages of the rules, built by nested expansion, solve the equations the rules are |
| BnfGrammar.LanguagesLeast | src/libponyc/ast/bnfprint.c:156-185 | they are below every solution, also for recursive rules |
| BnfGrammar.MutualSolutions | src/libponyc/ast/bnfprint.c:463-649 | two grammars each of which is solved by the other's languages have the same languages |
| BnfSimplify.UnchangedIffNormal | src/libponyc/ast/bnfprint.c:463-583 | simplifying a node reports no change if and only if nothing at or below it can be removed, collapsed or inlined, and then leaves it as it is |
| BnfSimplify.PassUnchanged | src/libponyc/ast/bnfprint.c:638-649 | a pass over the rules reports no change if and only if every body is in normal form |
| BnfPreserve.InlineCases | src/libponyc/ast/bnfprint.c:543-578 | a reference that is inlined becomes exactly the body of the rule referred to, unless the rule is copied into itself |
| BnfPreserve.NodePreserved | src/libponyc/ast/bnfprint.c:463-583 | simplifying a node keeps what it matches in every environment that solves the other rules, through every kind of change |
| BnfPreserve.SeqPreserved | src/libponyc/ast/bnfprint.c:478-502 | dropping NOPs, a NEVER making the whole NEVER, and collapsing a lone child keep what a sequence matches |
| BnfPreserve.OrPreserved | src/libponyc/ast/bnfprint.c:504-529 | dropping NEVERs, a NOP making the choice optional, and collapsing a lone mandatory alternative keep what a choice matches |
| BnfPreserve.RepeatPreserved | src/libponyc/ast/bnfprint.c:531-541 | a repetition of nothing, whether NEVER or NOP was repeated, is NOP |
| BnfPreserve.ChildrenPreserved | src/libponyc/ast/bnfprint.c:589-634 | the children that stay, with the flags for NEVER and NOP, match in sequence and as alternatives what all children did |
| BnfPreserve.RulePreserved | src/libponyc/ast/bnfprint.c:463-583 | simplifying one rule keeps the language of every rule under least-fixpoint semantics, unless the rule inlines itself below its root |
| BnfPreserve.NodeRefers | src/libponyc/ast/bnfprint.c:463-634 | what a simplified node refers to was referred to by it or, through references that may be inlined, by the bodies they lead to |
| BnfPreserve.LoopsKeptOut | src/libponyc/ast/bnfprint.c:463-583 | simplifying a rule keeps every rule to be inlined from leading back to itself |
| BnfPreserve.PassKeepsLoopsOut | src/libponyc/ast/bnfprint.c:463-476 | so does a pass, in which then no rule inlines itself, and all languages are kept |
| BnfPreserve.RunPreserved | src/libponyc/ast/bnfprint.c:638-649 | a run of any number of passes keeps the language of every rule if no rule marked for inlining leads back to itself in the first grammar |
| BnfPreserve.SelfInliningChangesLanguage | src/libponyc/ast/bnfprint.c:543-578 | a concrete well-formed grammar whose rule, inlined into itself, derives nothing before and a string after |
| BnfOrder.OrdersFixpoint | src/libponyc/ast/bnfprint.c:156-185 | what the rules order, built by nested expansion, solves the equations the rules are |
| BnfOrder.OrdersLeast | src/libponyc/ast/bnfprint.c:156-185 | it lies below every solution, also for recursive rules |
| BnfOrder.MutualOrders | src/libponyc/ast/bnfprint.c:463-649 | two grammars of the same languages, each solved by what the other orders, order the same pairs |
| BnfOrder.AlternativesOrdered | src/libponyc/ast/bnfprint.c:504-529 | of two alternatives of a choice, the words of the earlier come before those of the later |
| BnfOrder.OrdersTell | src/libponyc/ast/bnfprint.c:504-529 | a concrete choice orders its two words one way and not the other, so that exchanging the alternatives would show |
| BnfOrder.NodeRetained | src/libponyc/ast/bnfprint.c:463-583 | a simplified node orders what it did in every environment that gives the other rules what their bodies order |
| BnfOrder.ChildrenInOrder | src/libponyc/ast/bnfprint.c:589-634 | of the alternatives of a choice, and of the parts of a sequence, those at some increasing places remain, each as what it has become at its place, and all others have become something that never matches or does nothing; a lone one may stand for the whole |
| BnfOrder.RuleRetained | src/libponyc/ast/bnfprint.c:463-583 | one simplified rule that is not inlined into itself keeps what all rules order |
| BnfOrder.PassRetained | src/libponyc/ast/bnfprint.c:463-476 | so does a pass |
| BnfOrder.RunRetained | src/libponyc/ast/bnfprint.c:638-649 | a run of any number of passes keeps it if no rule marked for inlining leads back to itself in the first grammar |
| BnfOrder.FirstStaysFirst | src/libponyc/ast/bnfprint.c:504-529 | an alternative that is replaced by the token it refers to stays before the other |
| BnfSettle.WeightsExist | src/libponyc/ast/bnfprint.c:543-578 | when inlinable rules refer to one another without circles, references can be given weights above those of the bodies that replace them |
| BnfSettle.NodeShrinks | src/libponyc/ast/bnfprint.c:463-583 | every change to a node makes its weight strictly smaller, inlining included |
| BnfSettle.RuleSettles | src/libponyc/ast/bnfprint.c:463-583 | simplifying a rule keeps the ranks and the weights good for the new grammar, and the total weight falls with every change |
| BnfSettle.RunsEnd | src/libponyc/ast/bnfprint.c:638-649 | a run of passes that all change something is no longer than the total weight at its start, and keeps all languages |
| BnfLimits.LoneReferencesNeverSettle | src/libponyc/ast/bnfprint.c:543-578 | rules to be inlined that are nothing but references to one another stay that, with a change reported in every pass, in every run |
| BnfLimits.CircleStays | src/libponyc/ast/bnfprint.c:543-578 | a circle of lone references outlives a pass |
| BnfLimits.HeightsExist | src/libponyc/ast/bnfprint.c:543-578 | without a circle every rule is some number of lone references from the end of its chain, fewer with every reference followed |
| BnfHeavy.HeavyExists | src/libponyc/ast/bnfprint.c:543-578 | if no rule to be inlined leads back to itself, rules can be given weights such that none outweighs one that refers to it, and a rule to be inlined weighs no less than its body |
| BnfHeavy.NodeLighter | src/libponyc/ast/bnfprint.c:463-583 | every change to a node takes weight away or else leaves the weight and shortens a chain of lone references |
| BnfRest.RunAtRest | src/libponyc/ast/bnfprint.c:638-649 | any run, whatever the grammar, is at rest if and only if it has come to a normal form, in which it then stays |
| BnfRest.NoRestInCircles | src/libponyc/ast/bnfprint.c:638-649 | a grammar in which lone references come to form a circle never comes to rest |
| BnfRest.PassLightens | src/libponyc/ast/bnfprint.c:463-476 | a pass that changes anything makes the whole lighter, or leaves the weight and lowers it, and keeps what that rests on |
| BnfRest.RestsIff | src/libponyc/ast/bnfprint.c:638-649 | if no rule to be inlined leads back to itself, the loop ends if and only if lone references never form a circle |
| BnfRest.SettlesRests | src/libponyc/ast/bnfprint.c:638-649 | it ends if the rules that may be inlined do not refer to one another in a circle |
| BnfRest.PassesPreserve | src/libponyc/ast/bnfprint.c:638-649 | under either condition any number of passes keeps the languages of all rules, what they order, and the shape of bodies that the next step needs |
| BnfRest.CircleRests | src/libponyc/ast/bnfprint.c:638-649 | a concrete grammar with a circle through a rule to be inlined comes to rest all the same |
| BnfTended.PassStaysKempt | src/libponyc/ast/bnfprint.c:463-583 | through a pass only something that never matches comes to have children that do not count, and no repetition comes to have several |
| BnfTended.NormalFormFilled | src/libponyc/ast/bnfprint.c:638-682 | in normal form every body that can match meets the assertions of the walk that comes next |
| BnfTended.FilledIffNoStumble | src/libponyc/ast/bnfprint.c:653-682 | as long as no repetition has several children, a body is as the walk needs it if and only if none of its assertions fails for it |
| BnfTended.LeftoverUnfilled | src/libponyc/ast/bnfprint.c:653-682 | a concrete grammar is simplified to one in which an assertion of that walk fails under a rule that never matches |
| BnfTree.EditNode | src/libponyc/ast/bnfprint.c:463-583 | the recursive editing of a node, with the loop over its children, is the specified simplification |
| BnfTree.EditChildren | src/libponyc/ast/bnfprint.c:589-634 | the loop that unlinks children while simplifying them is the specified simplification of the list, flags included |
| BnfTree.Tree.SimplifyOnce | src/libponyc/ast/bnfprint.c:463-476 | one walk over the rules is one specified pass, and reports whether anything changed |
| BnfTree.Tree.Simplify | src/libponyc/ast/bnfprint.c:638-649 | if passes come to rest at all, the loop ends with the first normal form they come to, with the names of the rules; if no rule can be inlined into itself, with their languages, their alternatives in the order they were in, and bodies that can match as the next step needs them |
| BnfAntlr.SplitMeans | src/libponyc/ast/bnfprint.c:653-698 | a body with alternatives taken out matches what it did, wherever the new rules mean what their bodies do |
| BnfAntlr.FreshNumbers | src/libponyc/ast/bnfprint.c:683-697 | the numbers given to new rules are distinct and unused, so that each reference made leads to the rule it was made for |
| BnfAntlr.SplitKeepsLanguages | src/libponyc/ast/bnfprint.c:653-698 | taking alternatives out of a rule keeps the language of every rule there was |
| BnfAntlr.CleanStays | src/libponyc/ast/bnfprint.c:653-682 | a body without the offending pattern is left alone and yields no new rules |
| BnfPutBack.NodePutBack | src/libponyc/ast/bnfprint.c:653-698 | putting back what has been taken out of a node, for the references made, gives the very node, with its alternatives in order |
| BnfPutBack.RestoresStep | src/libponyc/ast/bnfprint.c:653-698 | each rule done is still restored after the next, whatever numbers and bodies come later |
| BnfPutBack.RestoresAll | src/libponyc/ast/bnfprint.c:653-698 | at the end of the walk the bodies of the rules that were made restore every rule there was |
| BnfTree.Tree.AvoidNode | src/libponyc/ast/bnfprint.c:653-698 | children are done first, and the new rules are appended to the tree in that order with increasing numbers |
| BnfTree.Tree.AvoidAntlrBug | src/libponyc/ast/bnfprint.c:653-698 | the walk over a list it appends to ends; no repetition of a choice whose second alternative is not a token is left in any rule; every rule there was keeps its language; new rules have fresh consecutive numbers; with the bodies of the new rules put back for the references to them, every rule there was is what it was |
| BnfTree.Tree.SimplifyAndAvoid | src/libponyc/ast/bnfprint.c:848-858 | simplifying and then moving alternatives out goes through if and only if no rule that never matches is left such that an assertion of the walk fails for it; then every rule has its language, no offending pattern is left, and putting the new rules back gives the simplified ones, which order what the given ones do |
| Regex.ValidateRegex | lib/gtest/src/gtest-port.cc:257-311 | the one-pass check accepts exactly the expressions of the grammar: atoms with valid escapes, repetitions only after an atom, anchors only at the ends |
| Regex.AtomIs | lib/gtest/src/gtest-port.cc:203-248 | by ASCII codes: what a digit, white space, word or control escape and its negation match; escaped punctuation and plain characters match themselves, a dot all but a newline |
| Regex.PunctuationIs | lib/gtest/src/gtest-port.cc:211-213 | punctuation is the printable ASCII characters that are no letter, digit or blank |
| Regex.ParseWritten | lib/gtest/src/gtest-port.cc:313-373 | every sequence of atoms with their repetitions, and an anchor or none, is accepted as it is written and read back as that sequence |
| Regex.WrittenParsed | lib/gtest/src/gtest-port.cc:313-373 | and every accepted expression is what its reading is written as |
| Regex.RepetitionMeaning | lib/gtest/src/gtest-port.cc:313-342 | an expression that begins with a repeated atom matches a prefix if and only if some number of characters matches the atom's repetition and the rest matches what follows |
| Regex.MatchRepetitionAndRegexAtHead | lib/gtest/src/gtest-port.cc:313-342 | trying all repetition counts in turn is the meaning of the repeated atom and what follows it |
| Regex.MatchRegexAtHead | lib/gtest/src/gtest-port.cc:344-373 | the backtracking matcher returns true if and only if the expression matches a prefix of the string |
| Regex.MatchRegexAnywhere | lib/gtest/src/gtest-port.cc:375-396 | for every valid expression the result is true if and only if it matches some substring, the beginning after ^; null arguments match nothing |
| TokenText.DecodeEncoded | src/libponyc/ast/lexer.c:742-768 | decoding the encodings of any list of code points up to 0x10FFFF, in the shortest forms of section 3 of RFC 3629, gives back the list |
| TokenText.EncodeDecoded | src/libponyc/ast/lexer.c:742-768 | bytes that decode are the encoding of what they decode to, so that decoding is unique |
| TokenText.EncodeOctets | src/libponyc/ast/lexer.c:742-768 | by section 3 of RFC 3629: the first byte tells the length, the others begin with the bits 10, their payloads make up the code point, and a longer form is used only where needed |
| TokenText.Text.Append | src/libponyc/ast/lexer.c:331-348 | one byte is added at the end and nothing else changes, also when the buffer is doubled and copied |
| TokenText.Text.AppendUtf8 | src/libponyc/ast/lexer.c:742-768 | the encoding of a code point is added at the end |
| TokenText.Text.AppendAll | src/libponyc/ast/lexer.c:742-768 | appending any list of code points one by one adds their encodings, and on an empty buffer the bytes decode to exactly that list |
| TokenText.MarginLargest | src/libponyc/ast/lexer.c:508-538 | the margin is at most the indentation of every line with a solid character, and is that of one of them unless there is none |
| TokenText.Text.FindMargin | src/libponyc/ast/lexer.c:508-538 | the single scan over the bytes finds the margin of the lines |
| TokenText.Text.MoveLine | src/libponyc/ast/lexer.c:549-567 | what a line keeps is appended to what is done, the write position never passing the read position, and the bytes after it are as they were |
| TokenText.Text.Compact | src/libponyc/ast/lexer.c:540-570 | the in-place compaction leaves the concatenation of the trimmed lines |
| TokenText.OnlyBlanksTrimmed | src/libponyc/ast/lexer.c:549-567 | from a line with a solid character and no carriage return exactly the margin is removed, and only blanks |
| TokenText.ShortBlankLineVanishes | src/libponyc/ast/lexer.c:549-567 | a blank line no longer than the margin that is not a bare newline disappears with its newline |
| TokenText.LinesJoin | src/libponyc/ast/lexer.c:540-541 | with no margin the trimmed lines are the text itself, so that the loop may be skipped |
| TokenText.StartOf | src/libponyc/ast/lexer.c:572-584 | what the first bytes can be after trimming, so that the test for a leading newline takes what is there |
| TokenText.LeftoverNewlineExactly | src/libponyc/ast/lexer.c:572-584 | the leading-newline test meets trimmed-away bytes if and only if the text begins with CR LF, has no solid line and no bare newline line; never without a carriage return |
| TokenText.LoneNewlineIsLeftOver | src/libponyc/ast/lexer.c:572-584 | a text of CR LF alone is such a text |
| TokenText.Text.Normalise | src/libponyc/ast/lexer.c:499-585 | in-place normalising equals splitting into lines, trimming each by the margin, joining, and dropping one leading newline; or else says that trimmed-away bytes are looked at, if and only if the text is such |
| TextLayout.OneNewlineGoes | src/libponyc/ast/lexer.c:572-584 | of the trimmed lines one newline goes if they begin with one, with the carriage return before it, and nothing otherwise |
| TextLayout.EmptyFirstLine | src/libponyc/ast/lexer.c:572-584 | a text whose first line is a bare newline becomes its other lines, trimmed |
| TextLayout.EmptyFirstLineReturn | src/libponyc/ast/lexer.c:540-584 | the same for a first line of CR LF when the margin is less than two; else both bytes go with the margin, and then one newline of the others, if they begin with one |
| TextLayout.LaidOut | src/libponyc/ast/lexer.c:499-585 | a text laid out in rows, each of them a pad as wide as the margin and text free of carriage returns, or less than a pad, at least one row with text right after its pad, becomes the rows without pads, without the short ones, and without an empty first one |
| TextLayout.EveryTextLaid | src/libponyc/ast/lexer.c:499-585 | every text of several lines free of carriage returns is laid out so, or else in blanks and newlines only |
| TextLayout.EmptyLineGoes | src/libponyc/ast/lexer.c:494-585 | below an empty line that ends in CR LF just that line goes if and only if the margin is less than two or the rows do not begin with an empty one |
| TextLayout.FooBar | test/libponyc/lexer.cc:533-540 | Foo and bar below an empty line become just those two lines |
| LexNumber.PositionalWeights | src/libponyc/ast/lexer.c:860-930 | appending digits one by one gives old * base^n plus the sum of digits times powers of the base |
| LexNumber.ContinuesGrouped | src/libponyc/ast/lexer.c:860-930 | the loop's two flags decide whether a numeral is digits with at most one underscore before each |
| LexNumber.ZerosCountedOut | src/libponyc/ast/lexer.c:860-930 | 2^32 zeros have the form of a numeral and the value zero, and their 32-bit count is zero |
| LexNumber.LexInteger | src/libponyc/ast/lexer.c:860-930 | success if and only if the longest run of underscores and alphanumerics has the form of a numeral with all digits below the base, the value fits 128 bits and the 32-bit digit count is not zero; then the value, the count and the cursor are those of the run; else the cursor is at the underscore, digit or end at which that shows |
| LexNumber.Real | src/libponyc/ast/lexer.c:935-981 | the rest of a real literal: a dot without a digit after it is left alone, and the significand, the number of digits after the dot and the signed exponent are those written |
| LexNumber.Number | src/libponyc/ast/lexer.c:1017-1050 | a number is hexadecimal, binary or decimal by its prefix, an integer or real, with the cursor right after it |
| LexNumber.NumberProgress | src/libponyc/ast/lexer.c:1017-1050 | a number that begins with a digit takes at least one character, even if it is an error |
| LexWritten.SpelledNumeral | src/libponyc/ast/lexer.c:860-930 | digits written with any capitals and any single underscores are read as the number they stand for, by place, appended to what was read; or not at all if that does not fit |
| LexWritten.GroupedSpelled | src/libponyc/ast/lexer.c:860-930 | every well formed numeral is written like that |
| LexWritten.ReadWhileFine | src/libponyc/ast/lexer.c:860-930 | a numeral is read up to the first underscore after another, digit not below the base, or overflow, whichever comes first |
| LexWritten.LiteralReads | src/libponyc/ast/lexer.c:935-1050 | for all digits: integral part, fraction or none, exponent or none, its letter and sign or none, are read as an integer, or as a real of all the digits before the exponent, the number of those after the dot, and the exponent, negative exactly for a minus; or as an error if one of the numbers does not fit |
| LexWritten.BasedReads | src/libponyc/ast/lexer.c:1000-1034 | hexadecimal and binary literals are read back likewise, with small or capital prefix |
| LexWritten.Thousandth | src/libponyc/ast/lexer.c:967-975 | 1e-3 is the digit 1 with the exponent 3, negative |
| LexCursor.Lexer.ConsumeChars | src/libponyc/ast/lexer.c:378-394 | the characters left stay the rest of the source; the line stays short of just the newlines consumed other than first, of any number of them, and the column right while there are none |
| LexCursor.LastLine | src/libponyc/ast/lexer.c:378-394 | the column counts what follows the last newline, and a newline adds one to their number |
| LexCursor.Lexer.ExactIffNoneLost | src/libponyc/ast/lexer.c:378-394 | while there are characters left, line and column are those of the cursor if and only if no newline has been lost |
| LexCursor.Lexer.SkipAll | src/libponyc/ast/lexer.c:418-424 | the cursor is at the end of the source, and only characters not looked at make its position doubtful |
| LexLiteral.HexBounded | src/libponyc/ast/lexer.c:629-655 | so many hexadecimal digits, and no more, are read, fewer just if the next character is none, and their value is below 16 to their number |
| LexLiteral.ReadHexEscape | src/libponyc/ast/lexer.c:629-655 | the value of the digits, or else minus the number of characters of the escape |
| LexLiteral.Escape | src/libponyc/ast/lexer.c:662-738 | the escape's value or error, the cursor after it, and one newline lost just if that is what the backslash stands before; nothing if the backslash is last |
| LexLiteral.String | src/libponyc/ast/lexer.c:773-808 | the token text is the bytes of the plain characters and the encodings of the escapes, bad ones left out, up to the closing quote or, with an error, the end |
| LexLiteral.TripleString | src/libponyc/ast/lexer.c:590-620 | the text up to three quotes, with those beyond three part of it, normalised |
| LexLiteral.Character | src/libponyc/ast/lexer.c:813-847 | every character or escape is one byte of a 128-bit number, up to the closing quote or, with an error, the end |
| LexQuoted.HexReadsBack | src/libponyc/ast/lexer.c:629-655 | reading a number written with so many hexadecimal digits gives the number |
| LexQuoted.QuotedReadsBack | src/libponyc/ast/lexer.c:773-808 | every list of code points can be written as a string literal that is read as bytes decoding to exactly that list |
| LexQuoted.PlainReads | src/libponyc/ast/lexer.c:773-808 | characters other than quotes and backslashes stand for themselves |
| LexQuoted.TripleReads | src/libponyc/ast/lexer.c:590-620 | a triple-quoted string without quotes in it is its text without the common indentation, unless that is a text of which trimmed bytes are looked at |
| LexQuoted.CharacterPacks | src/libponyc/ast/lexer.c:813-847 | plain characters are the digits of a number to the base 256, first most significant, of which the low 128 bits are kept |
| LexSpellings.EscapeReads | src/libponyc/ast/lexer.c:662-738 | every short escape is its control character, the escaped quote the quote, two digits after x, four after u and six after U their number, and any other escape an error |
| LexSpellings.UnitsRead | src/libponyc/ast/lexer.c:773-808 | a string literal of any characters and escapes is read as their bytes and encodings one after the other, errors left out, up to its quote |
| LexSpellings.UnitsUnended | src/libponyc/ast/lexer.c:773-808 | without the closing quote it is an error that takes all there is |
| LexSpellings.CharactersRead | src/libponyc/ast/lexer.c:813-847 | a character literal of any characters and escapes is the number of which they are the digits to the base 256, as far as 128 bits hold it |
| LexSpellings.QuotesBelong | src/libponyc/ast/lexer.c:590-620 | of the quotes that end a triple-quoted string all but three are part of its text |
| LexSpellings.TripleUnended | src/libponyc/ast/lexer.c:590-620 | without three quotes in a row it is an error that takes all there is |
| LexLost.StringMisses | src/libponyc/ast/lexer.c:662-808 | a string literal misses just the newlines with an odd number of backslashes right before them, ends at the first quote without, and overruns the source if and only if there is none and an odd number of backslashes at the end |
| LexLost.CharMisses | src/libponyc/ast/lexer.c:662-847 | the same for character literals |
| LexLost.EscapedBackslash | src/libponyc/ast/lexer.c:662-738 | an escaped backslash before a newline is read as both, with no newline missed |
| LexLost.ContentReads | src/libponyc/ast/lexer.c:773-808 | the contents of a string literal are read as the same bytes whatever other than a digit comes after them |
| LexLost.EscapedNewlineMissed | src/libponyc/ast/lexer.c:662-738 | between any two contents of a string literal a backslash before a newline makes the lexer miss one more newline, and is no character |
| LexLost.TrailingBackslashOverruns | src/libponyc/ast/lexer.c:662-738 | after any contents of a string literal a backslash that is last in the source makes the lexer consume more than there is |
| LexQuoted.StringSound | src/libponyc/ast/lexer.c:773-808 | where no backslash is last or before a newline, a string literal is read with no newline missed |
| LexQuoted.CharSound | src/libponyc/ast/lexer.c:813-847 | the same for character literals |
| LexWords.CommentsNest | src/libponyc/ast/lexer.c:429-462 | for every text, a comment is passed over if and only if its beginning is followed by characters and comments, to any depth, and an end, no character beginning or ending a comment with the next; and then just that is passed over |
| LexWords.NestedComment | src/libponyc/ast/lexer.c:429-462 | the loop over a comment with its counter passes over what the specification does, with no newline lost; a symbol after it does not count as first of its line; a comment that does not end is an error at the end of the source |
| LexWords.LineLongest | src/libponyc/ast/lexer.c:467-477 | a line comment goes up to the next newline or the end, and leaves the newline |
| LexWords.Slash | src/libponyc/ast/lexer.c:481-491 | a slash begins a block comment, a line comment or a division |
| LexWords.WordLongest | src/libponyc/ast/lexer.c:1056-1078 | a word is the longest run of letters, digits, underscores and primes |
| LexWords.ReadId | src/libponyc/ast/lexer.c:1056-1078 | the word is added to the token text and not consumed |
| LexWords.KeywordOrId | src/libponyc/ast/lexer.c:1088-1108 | the whole word with its prefix is a keyword if it is in the table, else an identifier where allowed, else nothing is consumed |
| LexWords.Hash | src/libponyc/ast/lexer.c:1112-1123 | a hash with a keyword's word, or else the hash alone |
| LexWords.Dollar | src/libponyc/ast/lexer.c:1127-1147 | with test symbols allowed a keyword or identifier, otherwise and alone an error |
| LexSpellings.NameReads | src/libponyc/ast/lexer.c:1088-1108 | a word that stands by itself is its keyword if there is one, else an identifier |
| LexSpellings.HashReads | src/libponyc/ast/lexer.c:1112-1123 | a hash begins a word only if that makes a keyword |
| LexSpellings.DollarReads | src/libponyc/ast/lexer.c:1127-1147 | a dollar begins a keyword or identifier in tests, and is an error otherwise and by itself |
| LexWords.LongestSymbol | src/libponyc/ast/lexer.c:44-103 | since longer symbols come first in the table, the first that fits is the longest that does |
| LexWords.SymbolToken | src/libponyc/ast/lexer.c:1151-1193 | comparing place by place finds the first symbol in the table that comes next, and four of them are another symbol when first of their line; any other character is an error |
| LexNext.StepSane | src/libponyc/ast/lexer.c:1242-1293 | every step of the choice by the first character gets on; without bad backslashes it misses no newline and does not overrun, without carriage returns it reads no trimmed bytes |
| LexNext.Step | src/libponyc/ast/lexer.c:1242-1293 | the choice by the first character among blanks, comments and tokens |
| LexNext.LexerNext | src/libponyc/ast/lexer.c:1226-1298 | the token returned is the next one of the text, with the line and column at which it begins; the end of the source is returned only there, and any other call makes what is left shorter; no newline is lost and there is a token, under conditions on backslashes and carriage returns |
| LexStretch.StretchPassed | src/libponyc/ast/lexer.c:1244-1298 | blanks, newlines, line comments and block comments in any order are passed over together, and what follows is read as first of its line exactly if a newline outside comments comes after the last block comment, or there is no block comment and one came before |
| LexStretch.StretchBefore | src/libponyc/ast/lexer.c:1244-1298 | whatever is passed over before a token is of that kind |
| LexStretch.OpeningSymbol | src/libponyc/ast/lexer.c:1151-1193 | opening brackets and a minus, unless in an arrow, are the symbols they are when first of a line or not |
| LexStretch.CallOnOneLine | src/libponyc/ast/lexer.c:1254-1259 | in f (x) the bracket is not first of its line |
| LexRun.RunAscends | src/libponyc/ast/lexer.c:1226-1298 | the tokens of a source begin one after the other, with ever more newlines missed before them, and the last of them is the end, which is no other |
| LexRun.SoundLosesNothing | src/libponyc/ast/lexer.c:1226-1298 | in a source in which no backslash is last or before a newline none is missed |
| LexRun.NextLexeme | src/libponyc/ast/lexer.c:1226-1298 | one call yields the first token of what is left, with its place, and leaves the rest of the tokens; its position is right if and only if no newline has been missed before |
| LexRun.Tokenise | test/libponyc/lexer.cc:37-56 | calling for tokens until the end of the source ends; the tokens are those of the text, each with the position at which it begins if and only if no newline has been missed before it; all are read if no backslash is last or before a newline and there is no carriage return |
| LexStretch.LexemePlaced | src/libponyc/ast/lexer.c:1226-1298 | each token of a run starts where a stretch of blanks and comments ends that begins at the end of the token before |
| LexStretch.FirstTokensOfLines | src/libponyc/ast/lexer.c:1226-1298 | of all tokens of a source, an opening bracket or minus is the symbol for the first of a line exactly if, since the token before it, a newline outside comments comes after the last block comment; at the start of the source it is enough that there is no block comment |
| LexSource.TokenReads | src/libponyc/ast/lexer.c:1242-1293 | every token that can be written is read as itself, to its end, if what follows does not make it longer |
| LexSource.SourceReadsBack | src/libponyc/ast/lexer.c:1226-1298 | the tokens of a source written from any tokens and stretches between them are those tokens, at their places, first of their line or not, and then the end |
| LexRun.AfterEscapedNewline | src/libponyc/ast/lexer.c:662-738 | after a string literal with an escaped newline between any contents, line and column are not those of the cursor |
| LexRun.AtTrailingBackslash | src/libponyc/ast/lexer.c:662-738 | the call for the next token fails at a string that after any contents ends in a backslash at the end of the source |
| AstForest.ChildrenChain | src/libponyc/ast/ast.c:250-276 | the children of a node are linked by sibling pointers from its child pointer, end with null, and each has the node as parent and is no orphan |
| AstForest.InsertWellFormed | src/libponyc/ast/ast.c:1056-1127 | hanging an unattached node below a node it does not contain keeps the forest well-formed |
| AstForest.RemoveWellFormed | src/libponyc/ast/ast.c:1089-1101 | taking a child out keeps the forest well-formed |
| AstForest.RetypeWellFormed | src/libponyc/ast/ast.c:1183-1185 | hanging an unattached node as a type keeps the forest well-formed |
| AstForest.ShapeExtends | src/libponyc/ast/ast.c:279-308 | the shape of a tree is not affected by changes outside it |
| AstCopy.DuplicateList | src/libponyc/ast/ast.c:279-308 | a list of siblings is copied to new nodes of the same shapes, linked in the same order under the new parent, and nothing that was there changes |
| AstCopy.CopyBelow | src/libponyc/ast/ast.c:297-298 | the children and the type of a node are copied below its copy, which then has the same shape |
| AstCopy.Dup | src/libponyc/ast/ast.c:279-308 | a copied tree is an orphan in the scope of the original, of the same shape, made of new nodes |
| AstCopy.CopyIsApart | src/libponyc/ast/ast.c:279-308 | nothing in a copy was there before, so that it shares no node with any other tree |
| AstEdit.NewAst | src/libponyc/ast/ast.c:320-337 | a new node is attached to nothing and in no scope |
| AstEdit.From | src/libponyc/ast/ast.c:339-346 | a new node made from another is an orphan in the other's scope |
| AstEdit.Detached | src/libponyc/ast/ast.c:1062-1063 | what is attached is the node itself if it hangs from nothing, else a copy of it |
| AstEdit.ReadyFor | src/libponyc/ast/ast.c:1062-1063 | a copy never contains the node it is to be hung from, so that only unattached ancestors have to be ruled out by the caller |
| AstEdit.Add | src/libponyc/ast/ast.c:1056-1069 | the node or its copy becomes the first child, before the one that was, and nothing else changes |
| AstEdit.AddSibling | src/libponyc/ast/ast.c:1071-1087 | the node or its copy comes right after the given child, and nothing else changes |
| AstEdit.Pop | src/libponyc/ast/ast.c:1089-1101 | the first child, if any, is taken out and is an orphan without siblings |
| AstEdit.LastOf | src/libponyc/ast/ast.c:726-737 | the walk along the siblings ends at the last one |
| AstEdit.Append | src/libponyc/ast/ast.c:1103-1127 | the node or its copy becomes the last child, after the one that was, and nothing else changes |
| AstEdit.OnePlace | src/libponyc/ast/ast.c:250-308 | no node is in two lists, twice in one, or both a child and a type |
| AstEdit.NoCycle | src/libponyc/ast/ast.c:1056-1213 | nothing is below itself |
| AstSplice.ChildIdx | src/libponyc/ast/ast.c:712-724 | the child at a place is found, null past the end |
| AstSplice.ChildCount | src/libponyc/ast/ast.c:739-751 | the walk counts the children |
| AstSplice.Index | src/libponyc/ast/ast.c:776-791 | the place of a child among its siblings is found |
| AstSplice.Previous | src/libponyc/ast/ast.c:759-774 | the sibling before a child is found, null for the first |
| AstSplice.IndexInverse | src/libponyc/ast/ast.c:712-791 | asking for the place of the child at a place gives the place back |
| AstSplice.RemoveChild | src/libponyc/ast/ast.c:1152-1167 | a child is taken out of its list and the others stay linked |
| AstSplice.Swap | src/libponyc/ast/ast.c:1169-1198 | the node or its copy takes the exact place of another, as a child or as the type, and the other becomes an orphan that keeps its scope |
| AstSplice.SwappedIs | src/libponyc/ast/ast.c:1180-1194 | a replacement changes one element of one list, or one type, and no order |
| AstSplice.Replace | src/libponyc/ast/ast.c:1200-1213 | nothing happens when a node is replaced by itself; an unattached node is only exchanged; an attached one is swapped out |
| AstReorder.ExtractChildren | src/libponyc/ast/ast.c:1597-1630 | exactly the requested children are handed out, as orphans; the others, those past the requested count included, keep their order |
| AstReorder.RemainingStep | src/libponyc/ast/ast.c:1608-1629 | unlinking with only the last kept child at hand removes the right element |
| AstReorder.ReorderChildren | src/libponyc/ast/ast.c:1215-1236 | for every permutation child i is the old child at place newOrder[i], the nodes themselves being kept |
| AstReorder.Released | src/libponyc/ast/ast.c:1223-1235 | while children are put back, those still to come hang from nothing and can be hung again |
| TestShuffle.Random.Generate | lib/gtest/src/gtest.cc:291-305 | the 32-bit wrap-around does not matter: the state is that of the unbounded recurrence modulo 2^31, and the number is below the range |
| TestShuffle.ArrangedPermutes | lib/gtest/src/gtest-internal-inl.h:318-325 | swapping by any choices permutes the range and leaves the rest |
| TestShuffle.EveryOrderArises | lib/gtest/src/gtest-internal-inl.h:318-325 | every rearrangement of a range comes of some list of choices |
| TestShuffle.OrdersDiffer | lib/gtest/src/gtest-internal-inl.h:318-325 | different lists of choices give different orders of distinct elements, so that uniform choices make uniform orders |
| TestShuffle.KeptIffLast | lib/gtest/src/gtest-internal-inl.h:318-325 | distinct elements stay in place if and only if every choice is the last place |
| TestShuffle.StepPermutes | lib/gtest/src/gtest.cc:291-293 | the generator is a permutation of the states below 2^31, undone by the inverse multiplier |
| TestShuffle.DrawAt | lib/gtest/src/gtest-internal-inl.h:320-325 | draw i of a range is the generator's number i modulo the places that are left, and as many are drawn as there are places but one |
| TestShuffle.EveryPlaceDrawn | lib/gtest/src/gtest-internal-inl.h:320-325 | for every width, draw and place left, some state makes that draw be that place |
| TestShuffle.PairKeptIffOdd | lib/gtest/src/gtest-internal-inl.h:320-325 | two different neighbours stay if and only if the next number is odd, and are exchanged otherwise |
| TestShuffle.EvenDrawsAgree | lib/gtest/src/gtest.cc:291-305 | the draws from even numbers of places are all odd or all even |
| TestShuffle.FourDrawn | lib/gtest/src/gtest-internal-inl.h:320-325 | three choices for four places are drawn from some state if and only if the first and the last agree in parity |
| TestShuffle.HalfTheOrders | lib/gtest/src/gtest-internal-inl.h:306-326 | an order of four elements arises if and only if its choices do so |
| TestShuffle.ShuffleRange | lib/gtest/src/gtest-internal-inl.h:306-326 | the loop arranges the range by the numbers the generator draws, and leaves the rest |
| TestOrder.ShuffledBlocks | lib/gtest/src/gtest.cc:4601-4607 | shuffling a range keeps every block of places that the range does not straddle |
| TestOrder.VisitsOnce | lib/gtest/src/gtest-internal-inl.h:591-596 | going through a list by places that are an order of it visits every element exactly once |
| TestOrder.TestCase.AddTestInfo | lib/gtest/src/gtest.cc:2423-2426 | a test added to an unshuffled case is last, and the case still unshuffled |
| TestOrder.TestCase.ShuffleTests | lib/gtest/src/gtest.cc:2463-2465 | the places of the tests are still an order, the one the generator's state gives |
| TestOrder.TestsKeptIffLast | lib/gtest/src/gtest.cc:2463-2465 | the tests of a case stay in the order of registration if and only if every draw picks the last place |
| TestOrder.EveryTestOrder | lib/gtest/src/gtest.cc:2463-2465 | any order of the tests comes of some draws |
| TestOrder.TwoTests | lib/gtest/src/gtest.cc:2463-2465 | two tests are exchanged if and only if the next number is even |
| TestOrder.NeverInThisOrder | lib/gtest/src/gtest.cc:2463-2465 | no state makes four tests run in the order third, second, fourth, first |
| TestOrder.UnitTest.GetTestCase | lib/gtest/src/gtest.cc:4173-4206 | a registered case is found by name; a new one goes after the death tests if it is one, else last; both kinds stay in the order of registration |
| TestOrder.UnitTest.ShuffleTests | lib/gtest/src/gtest.cc:4601-4613 | death tests are shuffled among themselves, the others among themselves, and the tests within every case |
| TestOrder.StateCounted | lib/gtest/src/gtest.cc:4601-4613 | the state a case is shuffled from is the one after all draws for the cases and for the tests of the cases before it |
| TestOrder.TwoCases | lib/gtest/src/gtest.cc:4601-4613 | two cases of one kind are exchanged if and only if the first number is even |
| TestOrder.UnitTest.UnshuffleTests | lib/gtest/src/gtest.cc:4616-4623 | cases and tests are back in the order of registration |
| TestOrder.UnitTest.RunCases | lib/gtest/src/gtest.cc:4312-4316 | whatever the shuffling, every case is run exactly once, with each of its tests once, and no death test after another case |
| TestOrder.UnitTest.RunAllTests | lib/gtest/src/gtest.cc:4281-4348 | every iteration is such a run; its order is a function of its seed alone; afterwards the order is that of registration |
| TestOrder.SeedsGoRound | lib/gtest/src/gtest-internal-inl.h:151-157 | the seed of iteration i is the first seed plus i, going round from the largest to 1 |
| TestOrder.EverySeedComes | lib/gtest/src/gtest-internal-inl.h:151-157 | every seed comes up within as many iterations as there are seeds |
| TestOrder.SameSeedSameRun | lib/gtest/src/gtest.cc:4335-4347 | an iteration can be repeated from its seed without those before it |
| TestOrder.PlacesKept | lib/gtest/src/gtest.cc:4601-4613 | shuffling leaves the cases where they were if and only if every number drawn for either block picks the last place |
| TestOrder.UnitTest.ShownCases | lib/gtest/src/gtest-internal-inl.h:584-589 | going through the cases by the accessor for listeners gives the order of registration |
| TestOrder.UnitTest.RunOnce | lib/gtest/src/gtest.cc:4281-4348 | what listeners are shown in an iteration is the order run if and only if it is not shuffled or its seed's draws all pick the last place |
| TestOrder.ListenersSeeOrder | lib/gtest/src/gtest-internal-inl.h:584-589 | the order of a shuffled run is that of registration if and only if the draws of the seed all pick the last place |
| TestOrder.ListenersMisled | lib/gtest/src/gtest-internal-inl.h:584-589 | with two cases and seed 1 the accessor shows the first before the second, and they are run the other way round |

## Left out

- BnfTree.Tree.Simplify: requires that the loop of the source ends, which RestsIff and SettlesRests say of grammars; for a
  grammar in which a rule to be inlined leads back to itself, and the static condition fails, there is only RunAtRest.
- LexRun.Tokenise: says nothing of the position of the end of the source after a comment that does not end.
- BnfPreserve.RulePreserved: the condition is sufficient; a rule that inlines itself below its root may keep its language
  by chance. So it is for BnfPreserve.RunPreserved, BnfOrder.RuleRetained and BnfOrder.RunRetained.
- BnfTree.Tree.AvoidAntlrBug: requires what the assertions of the source do of every node; SimplifyAndAvoid says when
  they fail after simplification.
- The nodes of a rule's body are values, and the edits in place are a context with a hole; pointer aliasing inside the
  grammar tree is not modelled. Numbers of generated rules are not copied by inlining, as in the source; there are none
  while simplifying.
- TokenText.Text.Normalise: when the source goes on to read trimmed-away bytes, what it makes of them is not modelled.
- LexNext.LexerNext: returns nothing when an escape consumes more than there is or trimmed-away bytes are read, and says
  nothing of what a source compiled without assertions then does. Letters are those of ASCII. A token's kind is a name,
  not a number; the messages reported with errors are not modelled.
- LexSource.SourceReadsBack: is about sources made of tokens and what may stand between them; of others only the laws of
  the single tokens and errors speak.
- TestShuffle.HalfTheOrders: is about four elements; of more, EvenDrawsAgree says that some orders never arise, and not
  exactly which.
- TextLayout.EmptyLineGoes: of texts with carriage returns, this is about those with just one, in an empty first line.
- LexNumber.Real: gives the parts of a real literal; scaling by `pow` is not modelled.
- Regex.MatchRegexAnywhere: requires strings shorter than the largest count, the limit documented for the matcher.
- TestOrder.UnitTest.RunAllTests: takes the number of iterations as a natural number; repeating for ever, filters,
  environments and results are not modelled. Whether a name is a death test's is a function given to the registry.
- AstSplice.RemoveChild: leaves the removed tree unattached where the source then frees it; so does AstSplice.Replace.
  Memory is not modelled.
- AstSplice.Index: requires a node in a list of children, as do AddSibling, Previous and RemoveChild; on a type the
  source walks past the end.
- Flags other than the orphan flag, data, tokens beyond a number, symbol tables and error lists of syntax tree nodes.
- LexIntMul.Div64: the source divides a negated copy through a pointer to a variable whose block has ended
  (lexint.c:246-251); the model keeps the copy, as if the variable were still there. So does LexIntMul.Div64Native, which
  is undefined for a zero divisor.
- LexIntMul.Accum: of representations with the sign flag on zero bits only the bits are described, in the native form;
  `lexint_and`, `or`, `xor` and `not` are one expression each.
- `RE::Init`, `RE::FullMatch` and the POSIX path; printing, files, flags and everything else of the test framework.
