# COLLASCII: a verified model

COLLASCII is a collaborative ASCII editor: clients edit a character canvas of which a server keeps the
master copy. It carries a large argument-parsing library. This project models the parts of both with the
most state and branching and proves what they are for. `dafny verify dfyconfig.toml` checks all of it.

| files | component |
|---|---|
| `Rotation`, `OptionSyntax`, `OptionLine`, `Getopt`, `Reparse` | the embedded `getopt_long`, with the gcd-cycle block exchange of the argument vector |
| `RegexSyntax`, `RegexPatterns`, `RegexBackslash`, `RegexGraph`, `RegexCompiler`, `RegexLanguage`, `RegexDecided`, `RegexRuns`, `RegexBounds`, `RegexClasses`, `RegexShow`, `RegexTrees`, `RegexMemory`, `RegexMatcher` | the T-Rex regular expressions: a compiler to a node array and a greedy matcher with look-ahead |
| `HashTable`, `HashIterator`, `Commands` | the chained hash table, removal during iteration, and the registry of commands |
| `MergeSort`, `DynString` | the merge sort and the growable string |
| `Grid`, `Canvas`, `CanvasTrim`, `GridText`, `GridFlat`, `CanvasText` | the canvas: overlays, bounding boxes, text files, serialization |
| `Wire`, `Replica`, `Server` | the line protocol, the replicated canvas as a step system, the server's slots and relay |
| `Common` | optional values, characters and decimals, shared by all |
| `Viewport` | cursor, scrolling view and the drawn window |

Code that updates state is modelled by classes, arrays and loops and is proved against specification
functions on values (`Reference`, `Outcome`, `MatchNode`, `Rehash`, `Sort`, `Load`, `Print`, `Walk`, ...);
the lemmas say what those functions mean.

What turned out different from what one would expect:

- An exact long option wins over abbreviations only if fewer than two abbreviated entries come before it in
  the table (`OptionSyntax.ResolveMeaning`, `OptionSyntax.ExactNameMissed`).
- A sorted command line is not always the same command: an option at the very end that lacks its argument
  takes the first operand when the sorted line is read (`Reparse.ReparseExactly`, `Reparse.OperandSwallowed`).
- The node array is allocated with one node per pattern character (`src/lib/argtable3.c:4248`), so the empty
  pattern has no room for its first node (`RegexCompiler.Compiler.TrexCompile`).
- A pattern that ends in a lone backslash is read past its end if it is the beginning of a pattern that would be
  accepted, such as the backslash alone; otherwise something in front of the backslash is rejected, as in `a)\`
  (`RegexBackslash.LoneBackslashExact`, `RegexBackslash.LoneBackslashes`).
- The order check of a character range compares a node index with the end of the range, so a range written
  backwards is accepted at the start of every pattern and contains nothing, and one written forwards is rejected
  behind enough other characters (`RegexPatterns.RangeCheckExact`).
- The matcher never goes back on a choice and misses texts of the language: `(a|ab)c` does not match `abc`, `a*a`
  not `aaa`, `a*(b*)c` not `aac`, `.*` not the empty text, and `a*` no run of more than 65536 letters. It misses
  none where one character decides every choice (`RegexDecided.DecidedExact`). A repetition stops at the first
  character that the next element takes, as `.*c` does at the first `c` (`RegexRuns.LookAheadExact`).
- A word boundary is found in front of the last letter of a word instead of behind it, and none is found between
  a word and two blanks (`RegexClasses.BoundaryPlaces`, `RegexClasses.BoundaryEarly`).
- The bounds of a repetition are cut to sixteen bits, and a maximum of 65535 means that there is none: `a{65536}`
  matches the empty text alone, and `a{65535}` admits longer runs (`RegexBounds.QuantifierRead`,
  `RegexBounds.CountsExact`).
- The dot takes the NUL behind the text, so the matcher can look at the memory behind it, and its answer can
  depend on that: `..x|a` does not match `a` if an `x` lies there. Where nothing follows an element that can take
  the NUL, and for decided patterns, it does not (`RegexMemory.MemoryIrrelevant`, `RegexMemory.DecidedIrrelevant`).
- Growing the hash table reverses chains, so among entries with one key, which `arg_hashtable_insert` allows,
  another one is found afterwards (`HashTable.RehashFindsLast`).
- In `setup_append_buf` the branches for an append buffer that is not the current buffer are dead
  (`DynStrings.DynString.SetupAppendBuf`).
- A canvas without rows but with columns does not survive saving (`GridText.PrintReadExact`); the functions can
  make one, the editor and the server do not.
- The server's check of coordinates lets negative ones through, and one row and one column too many; those
  lines stop it, and so do a set command without its numbers and a line of blanks (`Replica.StopsExactly`).
- At an edge, backspace erases the neighbour of the character just typed (`Viewports.BackspaceUndoes`).

## Model

| member | source | states |
|---|---|---|
| Rotation.GreatestCommonDivisor | src/lib/argtable3.c:1440-1452 | the remainder loop returns the greatest common divisor: it divides both numbers and every common divisor divides it |
| Rotation.GcdIsGreatest | src/lib/argtable3.c:1440-1452 | `Gcd` divides both numbers, and every common divisor divides it and is at most it |
| Rotation.OrbitInjective | src/lib/argtable3.c:1473-1484 | stepping by the second block's length modulo the total length meets no position twice before it has gone round |
| Rotation.OrbitReturns | src/lib/argtable3.c:1473-1484 | after (total length / gcd) steps a cycle is back where it started |
| Rotation.OrbitReaches | src/lib/argtable3.c:1473-1484 | a cycle reaches every position of its residue class |
| Rotation.CyclesOf | src/lib/argtable3.c:1458-1484 | the positions of two adjacent non-empty blocks fall into gcd-many disjoint cycles of equal length, one through each of the first positions of the second block, and the cycles cover all positions |
| Rotation.WalkCycle | src/lib/argtable3.c:1473-1484 | the swaps of one cycle put every word of the cycle where the block exchange wants it and move no other |
| Rotation.PermuteArgs | src/lib/argtable3.c:1458-1485 | the gcd-cycle rotation exchanges the two blocks, keeps the order inside each and leaves everything outside them alone |
| OptionSyntax.ResolveMeaning | src/lib/argtable3.c:1515-1546 | scanning the long-option table picks an entry, reports an ambiguity or finds nothing exactly as a scan-free definition of exact and abbreviated names says; an exact name wins only if fewer than two abbreviated entries precede it |
| OptionSyntax.MeaningUnique | src/lib/argtable3.c:1515-1546 | that definition allows one outcome only |
| OptionSyntax.ExactNameMissed | src/lib/argtable3.c:1515-1546 | behind two longer names that start with it, an exact name is reported as ambiguous, whatever the rest of the table |
| OptionSyntax.ExactNameAmbiguous | src/lib/argtable3.c:1515-1546 | `--a` is ambiguous in every table `ab`, `ac`, `a` |
| OptionSyntax.WordsKeepOrder | src/lib/argtable3.c:1600-1706 | sorting a line into option words and operands loses, invents and reorders no word |
| Getopt.SkipOperandKeeps | src/lib/argtable3.c:1674-1684 | skipping an operand, with the block exchange it may cause, changes neither the reports still to come nor the option words and operands of the whole vector |
| Getopt.ReportOperandKeeps | src/lib/argtable3.c:1659-1666 | an operand reported in order is the next event of the reference parser |
| Getopt.BeginWordKeeps | src/lib/argtable3.c:1686-1693 | starting on an option word keeps the outcome of the scan |
| Getopt.AfterEventKeeps | src/lib/argtable3.c:1714-1780 | reading one option consumes exactly one event of the outcome |
| Getopt.EndFinishes | src/lib/argtable3.c:1641-1655 | at the end of the vector the last exchange leaves option words, then operands, with `optind` between them |
| Getopt.DashesFinish | src/lib/argtable3.c:1692-1704 | `--` counts as the last option word: operands skipped before it move behind it |
| Getopt.StopFinishes | src/lib/argtable3.c:1667-1672 | without permutation the scan ends at the first operand with the vector as it is |
| Getopt.Parser.ParseLongOptions | src/lib/argtable3.c:1492-1593 | the prefix scan, the `=` argument, the separate argument and all error reports are those of the reference reading of a long option |
| Getopt.Parser.EndOfVector | src/lib/argtable3.c:1641-1655 | the end of the vector leaves a sorted vector and a parser ready for another one |
| Getopt.Parser.EndOfOptions | src/lib/argtable3.c:1692-1704 | so does the word `--` |
| Getopt.Parser.SkipWord | src/lib/argtable3.c:1674-1684 | an operand is skipped in place without changing the outcome |
| Getopt.Parser.UpdatePlace | src/lib/argtable3.c:1638-1706 | moving to the next option word keeps the outcome, reports an operand in order, or ends the scan |
| Getopt.Parser.ReadLetter | src/lib/argtable3.c:1728-1780 | an option letter with its attached, separate or missing argument is read as the reference parser reads it |
| Getopt.Parser.ReadOption | src/lib/argtable3.c:1708-1780 | whether the text is a long option, a letter or either, one event is reported and the scan state follows it |
| Getopt.Parser.GetoptInternal | src/lib/argtable3.c:1600-1781 | each call returns the next event of the reference parser, or -1 once there is none, with the vector sorted and `optind` at the first operand |
| Getopt.Parser.ReadAll | src/lib/argtable3.c:5008-5014 | the loop of calls until -1 reports exactly the reference parser's events; the vector ends up as program name, option words in order, operands in order, and `optind` points at the first operand |
| OptionLines.NamedEvent | src/lib/argtable3.c:1499-1588 | a name that stands for an option, with its value behind an equals sign or without: the code, the value exactly, and the errors |
| OptionLines.ArgRead | src/lib/argtable3.c:1600-1781 | for every table, option, value and rest of the line: `--name=v`, `--name v`, `-cv`, `-c v`, an option without value and an operand are reported as written, take these words and no other, and the parse of the rest follows |
| OptionLines.LineRead | src/lib/argtable3.c:5008-5014 | a line of properly written arguments is read as what was written, in order, and what is behind a double dash are operands |
| OptionLines.DashLetter | src/lib/argtable3.c:1657-1657 | a dash alone is the option of that letter if there is one, with the next word as its value if it takes one |
| OptionLines.StopsAtOperand | src/lib/argtable3.c:1667-1672 | without permutation all words from the first operand on are operands |
| OptionLines.ModesRead | src/lib/argtable3.c:1621-1625 | a plus or a dash in front of the option letters chooses the mode |
| OptionLines.NameErrors | src/lib/argtable3.c:1529-1577 | a value that is missing at the end of the line, or is given to an option that takes none, is reported with a colon if the option letters begin with one and else with a question mark, and the parse goes on |
| OptionLines.NameUnknown | src/lib/argtable3.c:1522-1526 | a name that is unknown or not clear is reported with a question mark |
| OptionLines.LetterMissing | src/lib/argtable3.c:1755-1767 | so is a letter without its value at the end of the line, by the first of the option letters |
| OptionLines.OneDashName | src/lib/argtable3.c:1714-1726 | in the mode for long options only, a name behind one dash is read as behind two, unless it begins with an option letter |
| OptionLines.ClusterRead | src/lib/argtable3.c:1728-1754 | a letter that takes no value, known or not, and more text in its word are reported like two words |
| OptionLines.LettersRead | src/lib/argtable3.c:1728-1754 | a letter is looked up in the option letters as it was declared, with a colon in front of them or not |
| Reparse.ReparseExactly | src/lib/argtable3.c:1600-1781 | reading the sorted line again gives the same parse if and only if no option at the end of the original line lacked its argument, or there is no operand |
| Reparse.OperandSwallowed | src/lib/argtable3.c:1766-1774 | `op -a`, where `-a` takes an argument, is an error; read again in sorted order, `-a` takes `op` |
| RegexPatterns.PatternEnds | src/lib/argtable3.c:3741-4021 | the parse never passes the end of a pattern unless the pattern ends in a lone backslash, and such a pattern is never accepted |
| RegexPatterns.OrderCheck | src/lib/argtable3.c:3848-3861 | at the dash of a range that ends its class, the range is rejected if and only if the index of the node held back exceeds the character at its end; where the range starts does not matter |
| RegexPatterns.RangeCheckExact | src/lib/argtable3.c:3835-3885 | a class of one range behind ordinary characters is accepted or rejected by the number of those characters and the end of the range alone, for every start |
| RegexPatterns.BackwardRangeAccepted | src/lib/argtable3.c:3848-3861 | every range written backwards, of printable characters, is accepted at the start of a pattern, and no character is in it |
| RegexPatterns.ForwardRangeRejected | src/lib/argtable3.c:3848-3861 | every range, though written forwards, is rejected behind enough ordinary characters |
| RegexBackslash.LoneBackslashExact | src/lib/argtable3.c:3741-4021 | a pattern that ends in a lone backslash is never accepted; it is read past its end if and only if some continuation of it is accepted, and otherwise rejected like every continuation of it |
| RegexBackslash.LoneBackslashes | src/lib/argtable3.c:3741-4021 | there are patterns of both kinds |
| RegexGraph.PackRoundTrip | src/lib/argtable3.c:3983-3988 | the two bounds of a repetition packed into one integer are recovered |
| RegexGraph.ItemsFrame | src/lib/argtable3.c:3713-3727 | what an element's nodes mean depends on the nodes of that element only |
| RegexCompiler.NewEither | src/lib/argtable3.c:4011-4019 | the node made for an alternative holds both sides, and their nodes are apart from each other |
| RegexCompiler.NewGroup | src/lib/argtable3.c:3902-3916 | the node of a group holds its body |
| RegexCompiler.Compiler.NewNode | src/lib/argtable3.c:3713-3727 | a node is written inside the array, which is doubled when full; all earlier nodes keep their place and content |
| RegexCompiler.Compiler.TrexEscapeChar | src/lib/argtable3.c:3741-3766 | an escape is read as the reference parser reads it |
| RegexCompiler.Compiler.TrexCharNode | src/lib/argtable3.c:3774-3834 | a character, control escape, class escape or boundary becomes the node of the reference parser's element |
| RegexCompiler.Compiler.StartRange | src/lib/argtable3.c:3848-3857 | a range starts with the character of the member held back; the two error checks come in the code's order |
| RegexCompiler.Compiler.AddRange | src/lib/argtable3.c:3848-3862 | a range is linked into the chain and becomes a member of the parsed class, or fails as the reference parser does |
| RegexCompiler.Compiler.LinkHeld | src/lib/argtable3.c:3863-3882 | the member held back is linked into the chain |
| RegexCompiler.Compiler.TrexMember | src/lib/argtable3.c:3847-3875 | one turn of the loop over the members follows the reference parser and keeps the chain in step with the members read |
| RegexCompiler.Compiler.TrexClass | src/lib/argtable3.c:3835-3885 | a class becomes a chain of nodes that holds exactly the members of the reference parse, ranges and the held-back character included |
| RegexCompiler.Compiler.TrexParseNumber | src/lib/argtable3.c:3886-3897 | the digits of a bound are read as a number |
| RegexCompiler.Compiler.TrexQuantifier | src/lib/argtable3.c:3935-3982 | a quantifier gives the bounds of the reference parse |
| RegexCompiler.Compiler.TrexGroup | src/lib/argtable3.c:3902-3916 | a parenthesised group is compiled to a node that holds the parsed body |
| RegexCompiler.Compiler.TrexAtom | src/lib/argtable3.c:3899-3933 | what a quantifier can follow is compiled to the node of the parsed item |
| RegexCompiler.Compiler.TrexItem | src/lib/argtable3.c:3899-3989 | an atom with its quantifier is compiled to the node of the parsed item |
| RegexCompiler.Compiler.TrexElement | src/lib/argtable3.c:3899-3997 | an element with what follows it in its branch is compiled to nodes that hold the parsed sequence |
| RegexCompiler.Compiler.TrexBranch | src/lib/argtable3.c:3999-4009 | a branch, with the start anchor if it has one, is compiled to nodes that hold the parsed sequence |
| RegexCompiler.Compiler.TrexList | src/lib/argtable3.c:3999-4021 | alternatives are compiled to nodes that hold the parsed alternatives |
| RegexCompiler.Compiler.TrexCompile | src/lib/argtable3.c:4244-4286 | compilation terminates, fails exactly with the reference parser's error, and on success yields a graph with all links in range or -1 that holds the parsed pattern under node 0; it leaves its memory exactly for the empty pattern and where the parse runs past the end |
| RegexLanguage.LookAheadOrdered | src/lib/argtable3.c:4107-4138 | the measure under which matching ends, look-ahead calls included, follows the nesting of the pattern |
| RegexLanguage.NodeSound | src/lib/argtable3.c:4092-4241 | matching an element never goes backwards, and what it passes over is in the element's language, whatever the look-ahead decides |
| RegexLanguage.RepeatSound | src/lib/argtable3.c:4095-4146 | a counted repetition accepts only a number of repetitions within its bounds |
| RegexLanguage.ChainSound | src/lib/argtable3.c:4147-4197 | so does a sequence of elements, in and outside a group |
| RegexLanguage.MatchesSound | src/lib/argtable3.c:4297-4306 | a match means that the whole text is in the language of the pattern |
| RegexDecided.FirstBeginsAll | src/lib/argtable3.c:4092-4241 | a non-empty text of a decided sequence begins with a character that the sequence can begin with |
| RegexDecided.Refuses | src/lib/argtable3.c:4092-4241 | an element whose first test fails on the character at hand does not match there |
| RegexDecided.RepeatComplete | src/lib/argtable3.c:4095-4146 | where one character settles whether a repetition goes on, the loop with its look-ahead takes all pieces and no more |
| RegexDecided.ChainComplete | src/lib/argtable3.c:4147-4197 | a decided sequence is matched up to where the language says, if no repetition at its end can go on there |
| RegexDecided.DecidedExact | src/lib/argtable3.c:4297-4306 | a pattern of which one character decides every choice, repetitions, groups and alternatives included, matches exactly its language |
| RegexDecided.RigidExact | src/lib/argtable3.c:4297-4306 | a pattern without repetition and alternatives matches exactly its language |
| RegexDecided.StarThenOther | src/lib/argtable3.c:4297-4306 | an example: a letter repeated, then another letter |
| RegexDecided.AlternativesIncomplete | src/lib/argtable3.c:4147-4166 | undecided alternatives can fail: the choice of `a` or `ab` followed by `c` does not match `abc` |
| RegexDecided.RepetitionsIncomplete | src/lib/argtable3.c:4095-4146 | an undecided repetition can fail: `a*a` does not match `aaa` |
| RegexDecided.LookAheadIncomplete | src/lib/argtable3.c:4113-4133 | the look-ahead can be fooled by what may be empty: `a*(b*)c` does not match `aac` |
| RegexDecided.EndIncomplete | src/lib/argtable3.c:4136-4145 | a repetition at the end can take the NUL behind the text: `.*` does not match the empty text |
| RegexDecided.LongRunsExact | src/lib/argtable3.c:4107 | `a*` matches a run of letters `a` if and only if there are at most 65536 of them |
| RegexBounds.NumeralRead | src/lib/argtable3.c:3886-3897 | a numeral of up to nine digits is read as its number, a longer one is rejected |
| RegexBounds.QuantifierRead | src/lib/argtable3.c:3939-3980 | `*`, `+` and `?`, and `{n}`, `{m,}` and `{m,n}` with numerals of up to nine digits, are read as their bounds, every number modulo 65536; a longer numeral is rejected |
| RegexBounds.CountsExact | src/lib/argtable3.c:3961-3988 | a repetition admits the counts its quantifier names if and only if the bounds survive the cut: the three signs, lower bounds up to 65535 and upper bounds below 65535, or bounds that contradict each other before and after |
| RegexBounds.CountedLetter | src/lib/argtable3.c:3899-3989 | the whole pattern of a letter and a quantifier is read so |
| RegexBounds.CountedLetterMatches | src/lib/argtable3.c:4095-4146 | the letter with any quantifier matches the runs of an admitted number of letters, up to 65536, and nothing else |
| RegexBounds.CountedLetterNames | src/lib/argtable3.c:4095-4146 | those are the runs whose number the quantifier names, if it survives the cut |
| RegexBounds.SignsExact | src/lib/argtable3.c:3941-3956 | `a*` matches the runs of 0 to 65536 letters, `a+` those of 1 to 65536, `a?` those of at most one |
| RegexBounds.FullTurn | src/lib/argtable3.c:3961-3966 | `a{65536}` matches the empty text and no other |
| RegexRuns.RepeatEnds | src/lib/argtable3.c:4095-4146 | a repetition of single characters ends exactly at the first place where its number is admitted and the next element, if it is looked at, takes the character at hand, or at the end of the text, of the run or of the bounds |
| RegexRuns.RunExact | src/lib/argtable3.c:4095-4146 | a repetition of single characters, alone, matches the runs of an admitted number, unless it takes the NUL behind an empty text |
| RegexRuns.LookAheadExact | src/lib/argtable3.c:4113-4133 | with a single character behind it, for any two kinds of characters and any bounds, it matches the texts whose last character is the first one of the second kind at which the repetition can end |
| RegexRuns.DotStarExact | src/lib/argtable3.c:4113-4133 | `.*c` matches a text that ends with the first `c` behind its first character |
| RegexRuns.GroupLookAheadExact | src/lib/argtable3.c:4167-4197 | the look-ahead sees past the end of a group |
| RegexRuns.AlternativeExact | src/lib/argtable3.c:4147-4163 | it does not see past the end of an alternative: `(a*|b)c` takes the longest run and never tries the other side |
| RegexRuns.TwoRunsExact | src/lib/argtable3.c:4113-4133 | a repetition that may be empty is not looked at, so of two runs the first one is the longest possible |
| RegexShow.CharRead | src/lib/argtable3.c:3741-3834 | a character written as itself, by its letter or behind a backslash is read back, in and outside classes |
| RegexShow.MembersRead | src/lib/argtable3.c:3847-3875 | the members of a class, ranges included, are read back as written |
| RegexShow.AtomRead | src/lib/argtable3.c:3899-3933 | so is every element that can have a quantifier |
| RegexShow.ElementRead | src/lib/argtable3.c:3935-3989 | so is an element with its quantifier |
| RegexShow.ListRead | src/lib/argtable3.c:3999-4021 | so are alternatives, each with or without a line start |
| RegexShow.PatternRead | src/lib/argtable3.c:4244-4286 | the pattern written for a syntax tree is read as that tree, with as many nodes as the tree needs |
| RegexTrees.MembersTree | src/lib/argtable3.c:3847-3875 | the members that are read can be written |
| RegexTrees.TreesExact | src/lib/argtable3.c:3741-4021 | the trees of patterns are exactly those that can be written: sequences of atoms with quantifiers, alternatives, and ranges only behind few enough nodes |
| RegexClasses.Complements | src/lib/argtable3.c:4023-4058 | a capital class escape is the complement of the small one; `l` and `u` have none |
| RegexClasses.Codes | src/lib/argtable3.c:4023-4058 | the characters of each class escape, by their codes |
| RegexClasses.Partition | src/lib/argtable3.c:4023-4058 | every ASCII character is in exactly one of: control characters, the blank, letters, digits, punctuation |
| RegexClasses.SingleExact | src/lib/argtable3.c:4212-4241 | an element that takes one character, alone, matches the texts of one such character |
| RegexClasses.EscapeTexts | src/lib/argtable3.c:4221-4226 | the pattern of a class escape matches one character of its class |
| RegexClasses.RangeTexts | src/lib/argtable3.c:4061-4090 | `[x-y]` matches one character from x to y, `[^x-y]` one that is not |
| RegexClasses.ClassTexts | src/lib/argtable3.c:4061-4090 | a bracket class matches one character of the set of its members, or of the complement |
| RegexClasses.SetUnion | src/lib/argtable3.c:4061-4090 | that set is the union of the sets of its parts |
| RegexClasses.BoundaryPlaces | src/lib/argtable3.c:4198-4203 | where the word boundaries of a text are |
| RegexClasses.BoundaryEarly | src/lib/argtable3.c:4198-4203 | one lies in front of the last letter of a word, so `a\bb c` matches `ab c`, and none between a word and two blanks |
| RegexMemory.NodeAlike | src/lib/argtable3.c:4092-4241 | on equal texts in different memory, where nothing follows an element that can take the NUL, every element is matched alike, and only elements that can take the NUL leave the text |
| RegexMemory.RepeatAlike | src/lib/argtable3.c:4095-4146 | so is a repetition with its look-ahead |
| RegexMemory.ChainAlike | src/lib/argtable3.c:4147-4197 | so is a sequence |
| RegexMemory.MemoryIrrelevant | src/lib/argtable3.c:4297-4306 | a pattern in which nothing follows an element that can take the NUL matches a text whatever lies behind it; word boundaries are allowed in texts that do not end with white space |
| RegexMemory.LanguageOfTexts | src/lib/argtable3.c:4297-4306 | the language of a pattern depends on the text only, apart from word boundaries behind a text that ends with white space |
| RegexMemory.DecidedIrrelevant | src/lib/argtable3.c:4297-4306 | so a decided pattern that cannot go on at the NUL matches a text whatever lies behind it, with the same exception |
| RegexMemory.MemoryDecides | src/lib/argtable3.c:4147-4215 | `..x|a` matches the text `a` if and only if no `x` lies behind its NUL |
| RegexMatcher.TrexMatchClass | src/lib/argtable3.c:4061-4090 | walking the chain of a class decides membership in the set it holds |
| RegexMatcher.TrexMatchNode | src/lib/argtable3.c:4092-4241 | the matcher on the node array computes the match on the pattern the nodes hold, and terminates |
| RegexMatcher.TrexMatchGreedy | src/lib/argtable3.c:4095-4146 | the greedy loop with its look-ahead does, too |
| RegexMatcher.TrexMatchAlternative | src/lib/argtable3.c:4147-4163 | one side of an alternative is matched node by node |
| RegexMatcher.TrexMatchGroup | src/lib/argtable3.c:4167-4197 | the nodes of a group are matched in turn, the last one seeing what follows the group |
| RegexMatcher.TrexMatch | src/lib/argtable3.c:4297-4306 | the result says whether the group at node 0 matches the whole text |
| RegexMatcher.Accepted | src/lib/argtable3.c:3475-3503 | compiling a pattern and matching an argument accepts only arguments in the language of the pattern as the reference parser reads it, its bounds cut to sixteen bits, and exactly those for decided patterns that cannot go on at the NUL; the answer is that of the matcher on the parsed pattern; memory outside the pattern is read exactly for the empty pattern and for one that ends in a lone backslash and has an accepted continuation |
| HashTable.Create | src/lib/argtable3.c:547-578 | the new table has the first listed prime above the wanted size; none is made above 2^30, and below that the list is long enough |
| HashTable.Table.constructor | src/lib/argtable3.c:565-577 | a new table is valid and holds nothing |
| HashTable.Table.Search | src/lib/argtable3.c:642-657 | a search follows one chain and returns the first entry with the key |
| HashTable.Table.Expand | src/lib/argtable3.c:580-613 | growing moves every entry, once, to its bucket in the next larger table: the entries are the same, and each new chain lists them in the reverse of the order of the walk |
| HashTable.Table.Insert | src/lib/argtable3.c:619-640 | an insertion adds one entry in front of its bucket, after growing the table exactly when the load limit is passed and a larger size is listed |
| HashTable.Table.Push | src/lib/argtable3.c:631-640 | the new entry goes to the front of the bucket of its hash, and nothing else changes |
| HashTable.Table.Cut | src/lib/argtable3.c:672-680 | one entry, at the front or inside its chain, is taken out, and nothing else changes |
| HashTable.Table.Remove | src/lib/argtable3.c:659-687 | a removal relinks the chain around the first entry with the key, takes that entry alone out, or leaves the table as it is if there is none |
| HashTable.Table.Count | src/lib/argtable3.c:615-617 | the entry count is the number of entries |
| HashTable.MoveAll | src/lib/argtable3.c:599-606 | the relinking loops empty all old chains into the new table |
| HashTable.MovedStep | src/lib/argtable3.c:600-605 | moving one chain head keeps the entries moved and left in the order of the walk |
| HashTable.LayoutPush | src/lib/argtable3.c:635-640 | a pushed entry keeps every entry in the bucket of its stored hash, once |
| HashTable.LayoutCut | src/lib/argtable3.c:672-680 | so does taking one out |
| HashTable.Missing | src/lib/argtable3.c:642-657 | a key that is not in its bucket is nowhere in the table |
| HashTable.RehashFindsLast | src/lib/argtable3.c:595-606 | after growing, a search finds the last entry of the old chain with the key instead of the first, so it is unaffected if and only if both have the same value |
| HashTable.RehashKeepsUnique | src/lib/argtable3.c:595-606 | with at most one entry for a key growing does not affect the search for it |
| HashTable.DuplicatesSwap | src/lib/argtable3.c:595-606 | two entries with one key change places when the table grows |
| Commands.SearchMeaning | src/lib/argtable3.c:642-657 | with unique keys a search is a lookup in the map the entries stand for |
| Commands.MeaningCount | src/lib/argtable3.c:615-617 | with unique keys there are as many entries as keys |
| Commands.Registry.Register | src/lib/argtable3.c:4621-4658 | registering replaces or adds one name of the map and keeps keys unique |
| Commands.Registry.Unregister | src/lib/argtable3.c:4660-4662 | unregistering takes one name out of the map |
| Commands.Registry.Info | src/lib/argtable3.c:4673-4675 | the lookup is the map's |
| Commands.Registry.Count | src/lib/argtable3.c:4677-4679 | the count is the size of the map |
| Commands.Registry.Run | src/lib/argtable3.c:4621-4679 | any run of register, unregister, lookup and count answers as a map does, across all growths of the table |
| HashIterators.WalkMeetsEachOnce | src/lib/argtable3.c:719-786 | the order of the walk lists every entry of the table exactly once |
| HashIterators.CutAt | src/lib/argtable3.c:791-818 | taking out the current entry leaves what has been passed and what is still to come |
| HashIterators.Iterator.constructor | src/lib/argtable3.c:719-740 | an iterator starts with everything still to come |
| HashIterators.Iterator.Advance | src/lib/argtable3.c:754-789 | an advance passes exactly the current entry and keeps the parent link right; at the end there is none |
| HashIterators.Iterator.Seek | src/lib/argtable3.c:772-788 | empty buckets are skipped, up to the end of the table |
| HashIterators.Iterator.Step | src/lib/argtable3.c:761-788 | the step goes to the given successor in the chain or to the next bucket that holds something |
| HashIterators.Iterator.Remove | src/lib/argtable3.c:791-818 | a removal takes exactly the current entry out of the table, moves on to the next one and repairs the parent link |
| HashIterators.Walk | src/lib/argtable3.c:719-818 | advances and removals mixed for any chosen set of entries meet every entry once, remove exactly the chosen ones and leave the others where they were |
| MergeSort.SortKeeps | src/lib/argtable3.c:429-442 | sorting permutes, for every comparator |
| MergeSort.SortSorted | src/lib/argtable3.c:429-442 | for every total preorder the result is in order |
| MergeSort.MergeTies | src/lib/argtable3.c:395-421 | of equal elements, merging puts those of the right half first |
| MergeSort.SortTies | src/lib/argtable3.c:429-442 | equal elements come out in the reverse of their original order |
| MergeSort.TiesDetermine | src/lib/argtable3.c:429-442 | a sorted sequence is determined by the order of its equal elements |
| MergeSort.SortIsStableOfReverse | src/lib/argtable3.c:429-442 | the result is the stable sort of the reversed range |
| MergeSort.MergedRest | src/lib/argtable3.c:396-411 | once one division is used up, the rest of the other ends the merge |
| MergeSort.TakeNext | src/lib/argtable3.c:414-421 | the smaller of the next two elements is appended, of equal ones the right one |
| MergeSort.MergeBuffer | src/lib/argtable3.c:377-421 | the three-way loop fills the buffer with the merge of the two divisions |
| MergeSort.MergeDivisions | src/lib/argtable3.c:377-426 | merging replaces exactly the range |
| MergeSort.Mgsort | src/lib/argtable3.c:429-442 | the closed range is replaced by its merge sort and nothing outside it changes |
| DynStrings.DynString.constructor | src/lib/argtable3.c:971-978 | a new string is empty and owns no allocated buffer |
| DynStrings.DynString.Set | src/lib/argtable3.c:989-1032 | setting makes the string the text given, by copy or by keeping the buffer, and releases what it owned before, once |
| DynStrings.DynString.Cat | src/lib/argtable3.c:1039-1042 | appending concatenates |
| DynStrings.DynString.CatF | src/lib/argtable3.c:1077-1117 | the retry loop around the bounded print ends with the whole formatted text appended |
| DynStrings.DynString.SetupAppendBuf | src/lib/argtable3.c:1119-1170 | afterwards the append buffer holds the same text with room for the new characters and the terminator, and the recorded length is right; the branches for an append buffer that is not the current buffer are never taken |
| DynStrings.DynString.RepairUsed | src/lib/argtable3.c:1127-1148 | a stale length is noticed and repaired by looking at one character |
| DynStrings.DynString.MoveToBuffer | src/lib/argtable3.c:1150-1166 | the text moves to a new append buffer of the wanted size, and the old one is released |
| DynStrings.DynString.Free | src/lib/argtable3.c:1172-1181 | what the string was set to is released once |
| DynStrings.DynString.Reset | src/lib/argtable3.c:1183-1193 | a reset empties the string and leaves nothing to release |
| DynStrings.DynString.Run | src/lib/argtable3.c:971-1193 | after any run of sets with any release procedure, appends, formatted appends and resets the string is the last text set followed by what was appended since |
| DynStrings.StrNCat | src/lib/argtable3.c:1039-1042 | the characters and the terminator written fit the buffer |
| Grids.BoundingBoxUnique | src/canvas.c:241-354 | a grid has one bounding box |
| Grids.TrimKeepsAll | src/canvas.c:241-354 | what a trim keeps, laid back at its offset on a grid full of the ignored character, is the original |
| CanvasTrim.BoundsStep | src/canvas.c:260-325 | scanning one more row keeps the four bounds exact |
| CanvasTrim.ScanLeft | src/canvas.c:264-286 | the left bound moves to the row's first character exactly if that is not to its right, and the row counts as empty exactly if it is |
| CanvasTrim.ScanRight | src/canvas.c:291-308 | the right bound moves to the row's last character exactly if that is not to its left |
| Grids.TrimIsMinimal | src/canvas.c:241-354 | on each chosen side the edge of a trimmed canvas holds something and nothing that is not ignored is cut off, on each other side nothing is cut off, and of a blank canvas the chosen sides leave the corner |
| Grids.TrimUnique | src/canvas.c:241-354 | that leaves one result |
| CanvasTrim.TrimC | src/canvas.c:241-354 | the result is cut to the exact bounding box on the chosen sides and not at all on the others, so its edges hold something there, as `Grids.TrimIsMinimal` says; a blank canvas gives the corner |
| Canvases.Canvas.constructor | src/canvas.c:29-47 | a new blank canvas is full of spaces |
| Canvases.Canvas.SetCharYX | src/canvas.c:364-367 | setting a cell changes that cell only |
| Canvases.Canvas.CopyP1P2 | src/canvas.c:69-100 | the copy is the rectangle spanned by two points in either order |
| Canvases.Canvas.LoadCanvasYXC | src/canvas.c:179-208 | an overlay with a transparent character replaces exactly the covered, opaque cells and reports truncation |
| Canvases.Canvas.LoadCanvasYX | src/canvas.c:148-169 | an overlay replaces exactly the covered cells and reports truncation |
| Canvases.Canvas.Resize | src/canvas.c:219-230 | a resize keeps what fits and reports truncation |
| GridText.PrintReadExact | src/canvas.c:480-628 | reading a printed canvas gives it back if and only if its cells hold no newline or NUL and it has a row or no column |
| GridText.PrintTrimReadExact | src/canvas.c:526-628 | reading a canvas printed without trailing spaces gives it cropped at its rightmost character, if and only if its cells hold no newline or NUL |
| GridText.ReadPrintTrim | src/canvas.c:526-628 | reading any text without NULs and printing it trimmed removes the trailing spaces of each line and what no newline ends, and nothing else; a last line is lost if and only if no newline ends it |
| GridText.ReadPlain | src/canvas.c:582-628 | a canvas read from any file holds no newline and no NUL |
| GridText.AlwaysWritable | src/canvas.c:409-434 | a load from the first column never writes outside a canvas with a column |
| GridFlat.LoadWraps | src/canvas.c:409-434 | the wrapping loader puts the k-th character of newline-free text at flat index k |
| GridFlat.LoadLine | src/canvas.c:409-434 | from any start column and with any transparent character, character k of a line lands at index k of the columns from the start column on, counted from the cursor, or below the canvas; no other cell changes |
| GridFlat.LoadLineByLine | src/canvas.c:409-434 | a newline goes to the start column of the row behind the rows of its line, so a text is loaded line by line |
| GridFlat.ConsumedLine | src/canvas.c:409-434 | the loader gets through as many characters of a line as there are cells left |
| GridFlat.ConsumedLineByLine | src/canvas.c:409-434 | and on to the next line if it got through one |
| GridFlat.PrintAt | src/canvas.c:480-502 | a printed canvas holds each cell at its place, with a newline behind each row and nothing more |
| GridFlat.PrintEnds | src/canvas.c:480-564 | printed text of a canvas with a row ends with a newline, trimmed or not |
| GridFlat.LoadFlat | src/canvas.c:409-434 | loading the cells of a canvas in flat order rebuilds the canvas |
| CanvasText.LoadStrYXC | src/canvas.c:409-434 | the loader computes the load of the text, and returns how far it got |
| CanvasText.ReadF | src/canvas.c:582-628 | the two-pass reader computes the canvas of the file |
| CanvasText.ReadFNoRewind | src/canvas.c:638-694 | the one-pass reader computes the same canvas for every input, and its doubling buffer always has room for the next character and the terminator |
| CanvasText.FPrint | src/canvas.c:480-502 | prints the rows, each with a newline, and returns the number of characters |
| CanvasText.PrintRowTrim | src/canvas.c:532-554 | holding spaces back prints a row without its trailing spaces |
| CanvasText.FPrintTrim | src/canvas.c:526-564 | prints the rows without trailing spaces and returns the number of characters |
| CanvasText.Serialize | src/canvas.c:707-713 | the buffer receives the cells in flat order and nothing more |
| CanvasText.Deserialize | src/canvas.c:721-723 | the canvas becomes what loading the bytes from its first cell on makes of it |
| CanvasText.SameFlat | src/canvas.c:729-743 | canvases of one shape are equal if and only if their flat cells are |
| CanvasText.Equal | src/canvas.c:729-743 | the comparison decides equality of canvases |
| CanvasText.Snapshot | src/server.c:188-194 | serializing a canvas of plain cells and loading it into a blank one of its size copies it |
| Wire.DecimalRoundTrip | src/network.c:149-163 | reading back a number in decimals gives the number |
| Wire.SignedRoundTrip | src/network.c:149-163 | so does reading back an integer as `%d` prints it |
| Wire.NextWord | src/server.c:210-217 | called again and again with one delimiter, the tokenizer gives the words of the string in turn |
| Wire.ServerWords | src/server.c:206-231 | what the server takes a line for, by its words: the part in front of the first NUL or line end is split at blanks |
| Wire.SendComplete | src/network.c:149-163 | a set command for any 32-bit coordinates fits its 50-character buffer |
| Wire.ServerReads | src/server.c:198-226 | the server's stripping and tokenizing recovers row, column and character from a set line for any two `int` values, the space included; what other numbers are read as is open |
| Wire.ClientReads | src/network.c:122-136 | a client recovers the same three from the relayed line |
| Wire.SizeReads | src/network.c:85-95 | the size line gives back the numbers of rows and columns |
| Wire.StripNewline | src/server.c:129-136 | stripping cuts the line at its first newline or carriage return, in place |
| Replica.SnapshotExact | src/server.c:188-194 | a joining client builds exactly the server's canvas |
| Replica.StepKeeps | src/server.c:49-88 | editing, serving, receiving, joining and leaving keep the invariant of replicas, links and master |
| Replica.RunKeeps | src/server.c:147-247 | so does every run |
| Replica.ReadersAgree | src/server.c:75-88 | in every reachable state a client's canvas, after the lines on their way to it, shows the master's character on every cell the client never set |
| Replica.WritersAgree | src/network.c:149-163 | in every reachable state the master, after the lines on their way from a client, shows that client's character on every cell nobody else ever set |
| Replica.QuietMeansEqual | src/server.c:75-88 | with empty links a client shows the master's canvas if nobody else set the cells it set |
| Replica.AllEqual | src/server.c:75-88 | with one writer per cell and empty links all replicas equal the master |
| Replica.StopsExactly | src/server.c:206-227 | of all lines whose numbers are `int` values, NULs in them included, exactly those stop the server that are made of blanks, are a set command with fewer than two words behind it, or name a cell outside the canvas that passes its check: a negative row or column, or the first row or column too many; exactly the set commands with another number are left open |
| Replica.AnswersExactly | src/server.c:198-231 | of a line that does not stop the server and is not open: a set command for a cell of the canvas puts the last character of the line into that cell alone and relays just that; any other line changes nothing and is not relayed |
| Replica.CellStops | src/server.c:219-227 | the same for the line of any cell: of those with `int` coordinates exactly these stop the server, and exactly the others are left open |
| Replica.SomeLinesStop | src/server.c:206-227 | whatever the canvas, there are lines of each of these kinds, also one whose numbers are missing because of a NUL |
| Server.Server.QueueAdd | src/server.c:49-59 | a client takes the first free slot, if any, and no client has two |
| Server.Server.QueueDelete | src/server.c:61-73 | exactly the client with the uid leaves |
| Server.Server.SendMessage | src/server.c:75-88 | the line goes to every client but the sender, once |
| Server.Server.SendMessageSelf | src/server.c:104-110 | the text goes to the client being served |
| Server.Server.HandleLine | src/server.c:198-231 | a set line changes the master canvas and is relayed as the step system says; a request for the canvas is answered with its cells to the sender alone |
| Viewports.OppositeUndoes | src/cursor.c:114-126 | a step and the opposite one lead back if and only if the first one was not stopped at an edge or the canvas is one cell across |
| Viewports.View.RedrawCanvasWin | src/frontend.c:503-532 | the three loops draw every cell of the drawing area exactly once, with the canvas or the filler, and leave the border alone |
| Viewports.View.MoveUp | src/view.c:19-25 | scrolling up stops at the first row and keeps the window in step with the canvas |
| Viewports.View.MoveDown | src/view.c:27-33 | scrolling down stops one row past the canvas and keeps the window in step |
| Viewports.View.MoveLeft | src/view.c:35-41 | scrolling left stops at the first column and keeps the window in step |
| Viewports.View.MoveRight | src/view.c:43-49 | scrolling right stops one column past the canvas and keeps the window in step |
| Viewports.View.PanCh | src/view.c:51-66 | panning scrolls as the arrow says and keeps the window in step |
| Viewports.Cursor.MoveUp | src/cursor.c:43-49 | moving up is a clamped step on the canvas, with or without scrolling |
| Viewports.Cursor.MoveDown | src/cursor.c:51-61 | moving down is a clamped step on the canvas, with or without scrolling |
| Viewports.Cursor.MoveLeft | src/cursor.c:63-69 | moving left is a clamped step on the canvas, with or without scrolling |
| Viewports.Cursor.MoveRight | src/cursor.c:71-81 | moving right is a clamped step on the canvas, with or without scrolling |
| Viewports.Cursor.KeyToMove | src/cursor.c:97-112 | an arrow key moves the cell under the cursor by a clamped step, whatever the window size, and keeps the cursor in the window |
| Viewports.Cursor.SetChar | src/frontend.c:494-501 | a character written at the cursor changes one cell of the canvas, and the window still shows the canvas |
| Viewports.ShownAfterPut | src/frontend.c:494-501 | a written cell changes what one cell of the window has to show |
| Viewports.BackspaceUndoes | src/fe_modes.c:386-396 | backspace returns to the character just typed if and only if the edge did not stop the cursor after typing; otherwise it erases a neighbour |
| Viewports.DeleteErases | src/fe_modes.c:378-398 | deleting leaves a blank under the cursor and changes nothing else |
| Viewports.KeysKept | src/fe_modes.c:378-398 | an arrow changes the direction of writing and no cell; a character that is not printable does nothing |
| Viewports.TypedText | src/fe_modes.c:378-398 | typed text that fits the canvas stands there in the direction of writing, no other cell changes, and the cursor is behind it or on its last character at the edge |
| Viewports.InsertKey | src/fe_modes.c:378-398 | one key of the insert mode does what it would do without a window |
| Viewports.Edit | src/fe_modes.c:378-398 | any run of keys from a full redraw edits the canvas as if there were no window, and the window shows the rendering of the canvas and the view |

## Left out

- Sockets, threads, `select`, signals, file handles and allocation failures: links are queues of lines, files are character sequences.
- Join ordering: the server registers a client before it sends the size line and the snapshot; here registering and snapshot are one step.
- Interleaving of the unlocked canvas write and the relay between server threads, and agreement on a cell that several clients set.
- Reads that deliver several commands or part of one: one line is handled per step.
- The server command `q`, which is the step of leaving; clients never send `c`, so the step system answers it with nothing.
- `POSIXLY_CORRECT`, `W;` in the option letters, long options whose value is -1, calls without long options, and the printed error messages.
- Case-insensitive matching, captures and searching in regular expressions; characters are bytes in the C locale.
- RegexDecided.DecidedExact: exact for decided patterns only. What the matcher does on others is characterised for repetitions of single characters with a single character behind them (`RegexRuns`), and examples show how it fails; for all other patterns there is soundness.
- `arg_rex_scanfn` matching with the null result of a failed compilation: the model returns the failure.
- Bit mixing in `enhanced_hash` and the floating-point load limit: any function of the key and any limit per table size are allowed.
- `arg_hashtable_change`, `arg_hashtable_itr_search` and `arg_hashtable_destroy`; keys are compared by content, as `equal_keys` does.
- Replica.StopsExactly: leaves open what a set command with a number beyond `int` does, because `atoi` is undefined for it; with the usual truncation some such lines stop the server, too. No step serves such a line.
- Signed `char`: bytes from 128 up are positive codes here; where `char` is signed they are negative in the code, so ranges and checks with such bytes come out differently.
- 32-bit overflow of entry counts, buffer sizes and `optind`: these are unbounded integers here.
- A string passed to `arg_dstr_set` or `arg_dstr_cat` that is one of the string's own buffers, except the append buffer in a volatile set.
- Formatting inside `arg_dstr_catf`: the formatted text is a parameter.
- The terminator of the buffer that `canvas_serialize` fills, which is taken to be in place, and coordinates outside the canvas where the code asserts that they are inside.
- `canvas_trim` (its body is empty), `canvas_fill`, and `canvas_print`.
- ncurses windows other than the canvas window, terminal resizing, page keys, mouse, the ENTER key of the insert mode, and the other modes except panning of the view.
- Date parsing, usage and glossary printing, and the `arg_xxx` constructors.
- Getopt.Parser.ReadAll: the dispatch of each report to an argument table is not modelled.
- Viewports.View.PanCh: says nothing about the cursor, which panning does not move.
- The boundaries of some C functions: long ones such as `getopt_internal`, `trex_element`, `trex_matchnode` and `merge` are split into several methods.
