# Advent of Code 2020, days 1–7, in Dafny

This project models the seven solution scripts of an Advent of Code 2020
repository. Day 7 (Handy Haversacks) is the main component. It builds a
bag-containment graph from rule lines, answers "which colors can eventually
hold a shiny gold bag", and answers "how many bags one shiny gold bag
holds". Days 1–6 are short scripts:

- Day 1: searches an expense report for a pair and a triple summing to 2020.
- Day 2: parses password policies and checks them two ways.
- Day 3: counts trees along slopes of a wrapping grid.
- Day 4: parses and validates passport records.
- Day 5: decodes boarding passes into seat IDs and finds the missing seat.
- Day 6: counts the union and the intersection of answer sets.

One Dafny module stands for each script, and day 2 has a second one for the declarative reading of its pattern:

| module | file |
|---|---|
| `ReportRepair` | `day01_report_repair.dfy` |
| `PasswordPolicy` | `day02_password_policy.dfy` |
| `PasswordPattern` (the cuts of a line that the pattern matches) | `day02_password_pattern.dfy` |
| `Toboggan` | `day03_toboggan.dfy` |
| `Passports` | `day04_passports.dfy` |
| `BoardingPass` | `day05_boarding_pass.dfy` |
| `Customs` | `day06_customs.dfy` |
| `BagRules` (parsing and both adjacency maps) | `day07_rules.dfy` |
| `BagAncestors` (part 1 traversal) | `day07_ancestors.dfy` |
| `BagTotals` (part 2 memoized sum) | `day07_totals.dfy` |

Two support modules hold shared definitions:

- `Wrappers` (`wrappers.dfy`) defines `Option` and `Result`.
- `JsStrings` (`jsstrings.dfy`) models the JavaScript string built-ins the scripts use:
  - `split` and `join` on a separator;
  - the `\s`, `\d` and line-terminator classes of JavaScript regular expressions;
  - decimal `Number(...)`;
  - `parseInt(..., 2)`;
  - global one-character `replace`.

Each regular expression of the scripts is modelled by a hand-written matcher or predicate. A contract on it, or a lemma next to it, ties it to a declarative description of what the pattern accepts: the first or shortest split for lazy groups, the maximal run for greedy ones, and for the fixed-width day 4 patterns the zero-padded spellings of a bounded number.

A value that JavaScript would produce as `NaN`, `undefined` or a thrown
`TypeError` is modelled explicitly, as follows:

- `Option.None` stands for `NaN` and for a missing object property (`undefined`).
- In `BoardingPass.MaxId` it stands for the `-Infinity` that `Math.max()` returns for no IDs, and in `BoardingPass.FindGap` for the `null` that `part2` keeps when no gap is found.
- `Result.Err` stands for the `TypeError` that `isValidHeight(undefined)` throws.

The contracts relate each operation to an independent description of what it computes. Each operation has at least one such partner:

- a round trip through an encoder;
- for day 2 part 2, the set of 1-based positions that hold the letter;
- for the hcl and pid patterns, the zero-padded fixed-width spelling of a number, and for ecl the listed codes;
- for the `no other bags` rule, the empty entry it leaves in the built graph;
- a reachability definition over parent chains;
- the unmemoized recurrence of the day 7 sum;
- the set-comprehension union and intersection;
- the lexicographically first pair or triple.

Day 7 follows the code where it is more permissive than a strict design would be:

- Lines and clauses that do not match the patterns are skipped silently, not reported as errors.
- A clause `0 <color> bags` is accepted with count 0.
- A color heading several lines has all their clauses appended in order.
- The traversal does not remove the target color explicitly. The target is reported as its own ancestor exactly when it lies on a cycle. `BagAncestors.TargetNotOwnAncestor` shows that this cannot happen when the forward graph is acyclic.
- Part 2 is specified for acyclic forward graphs only. Acyclicity is given as a ghost rank map: every child is ranked below its container. The result does not depend on which rank is chosen.

## Model

| member | source | states |
|---|---|---|
| ReportRepair.FindPair | day01/index.js:46-61 | the reported entry is the first whose 2020-complement occurs at an earlier index; no hit exactly when no two distinct indices sum to 2020 |
| ReportRepair.FindTriple | day01/index.js:72-84 | the hit is an index triple i < j < k summing to 2020 with no such triple lexicographically before it; no hit exactly when no such triple exists |
| PasswordPolicy.Occurrences | day02/index.js:36-39 | the per-character count equals the multiplicity of the letter in the password |
| PasswordPolicy.CountLetter | day02/index.js:36-39 | the counting loop yields the multiplicity of the letter in the password |
| PasswordPolicy.CheckPolicy | day02/index.js:41-51 | part 1 holds iff min <= count <= max; part 2 holds iff min and max differ and exactly one of them is among the positions holding the letter, an out-of-range position never matching |
| PasswordPolicy.PositionsReading | day02/index.js:45-51 | part 2 holds iff min != max and exactly one of the two lies in the set of 1-based positions of the letter; a password valid under part 2 contains the letter at least once |
| PasswordPolicy.CheckLine | day02/index.js:20-51 | a line that fails the pattern counts for neither part; otherwise each part is decided on the parsed policy |
| PasswordPolicy.CountValid | day02/index.js:15-52 | both tallies equal the number of lines valid under each reading and neither exceeds the number of matching lines |
| PasswordPolicy.CountsBounded | day02/index.js:20-24 | only lines that match the pattern contribute to either count |
| PasswordPattern.MatchPasswordSplits | day02/index.js:18 | `\s+(.+)$` matches iff the text is one or more whitespace characters followed by one or more characters that are not line terminators; the capture is what follows the longest such whitespace run |
| PasswordPattern.MatchLetterSplits | day02/index.js:18 | `\s+([a-zA-Z]):` followed by the password part matches iff the text is whitespace, one ASCII letter, a colon and a matching password part; the captures are that letter and that password |
| PasswordPattern.ParseLineSplits | day02/index.js:18-30 | a line matches the whole pattern iff it is a digit run, `-`, a digit run and a matching letter part; the captured bounds are the decimal values of the two runs, and letter and password are that part's captures |
| PasswordPolicy.ParseFormatRoundTrip | day02/index.js:18-30 | a policy written as `min-max letter: password` is parsed back by the pattern to the same bounds, letter and password |
| PasswordPolicy.ParseShaped | day02/index.js:18-30 | the pattern captures both bounds, the letter and the whole password from `min-max letter: password` |
| PasswordPolicy.FormatInjective | day02/index.js:18-30 | two different capturable policies never print as the same line |
| JsStrings.DigitRun | day02/index.js:18 | the greedy `\d+` run: all digits, and the next character is not a digit |
| JsStrings.SpaceRun | day02/index.js:18 | the greedy `\s+` run: all whitespace, and the next character is not whitespace |
| JsStrings.DecimalRoundTrip | day02/index.js:27-28 | reading back the decimal spelling of n gives n |
| JsStrings.ParseDecimalSpelling | day02/index.js:27-28 | a digit string that is read as a number is spelled back as itself without its redundant leading zeros |
| JsStrings.Split | day06/index.js:35 | the pieces rejoined with the separator give the input, there is at least one piece, no piece contains the separator, and each separator is cut at its leftmost occurrence: no occurrence starts inside a piece, not even one running into the separator that follows it |
| JsStrings.SplitJoin | day04/index.js:37 | splitting a join of separator-free pieces gives back exactly those pieces |
| JsStrings.ReplaceAllEffect | day05/index.js:41-42 | a replaced character no longer occurs unless it is replaced by itself, and a text without the character is unchanged |
| JsStrings.ParseBinaryPrefix | day05/index.js:49-50 | `parseInt(s, 2)` is a number iff s starts with a bit, and on an all-bit string it is the binary value |
| JsStrings.BinaryValueBound | day05/index.js:49-50 | an n-bit string reads as a value below 2^n |
| Toboggan.CountTrees | day03/index.js:46-65 | the loop counts exactly the steps i with i*down inside the grid whose wrapped cell is '#', and never more trees than steps |
| Toboggan.StepsExact | day03/index.js:54-60 | row i*down is visited iff i is below the number of loop iterations |
| Toboggan.TreesBeforeBound | day03/index.js:54-62 | at most one tree is counted per step |
| Toboggan.CongruentSlopes | day03/index.js:57 | because of the column modulo, slopes whose right steps agree modulo the width hit the same trees |
| Toboggan.FiveSlopes | day03/index.js:77-88 | the reduce over the slope table is the product of the five tree counts |
| Toboggan.SlopeProduct | day03/index.js:77-88 | part 2 is the product of the tree counts for slopes (1,1), (3,1), (5,1), (7,1), (1,2) |
| Passports.FieldsKeys | day04/index.js:36-44 | a key is in the parsed record iff some token of the block carries it |
| Passports.FieldsLastWins | day04/index.js:39-42 | when a key repeats, the record keeps the value of its last token |
| Passports.TokenRoundTrip | day04/index.js:40-41 | a `key:value` token gives back its key and value |
| Passports.TokensRoundTrip | day04/index.js:37 | a block written as space-joined `key:value` tokens splits back into exactly those tokens |
| Passports.ParseFormatRoundTrip | day04/index.js:36-44 | a record printed with distinct keys parses back to the same keys and values |
| Passports.RequiredListed | day04/index.js:49-57 | the required check holds iff each of byr, iyr, eyr, hgt, hcl, ecl, pid is present, cid not needed |
| Passports.IsYearInRange | day04/index.js:75-78 | for a positive lower bound a year passes iff it is present and is a decimal integer within the bounds |
| Passports.YearRoundTrip | day04/index.js:75-78 | the decimal spelling of a year passes iff the year lies within the bounds |
| Passports.IsValidHeight | day04/index.js:80-91 | a missing height throws; otherwise it passes iff it is a decimal 150-193 followed by cm or 59-76 followed by in |
| Passports.HeightRoundTrip | day04/index.js:80-91 | a spelled-out height in cm or in passes iff its number lies in that unit's range |
| Passports.IsValidPassport | day04/index.js:93-117 | valid iff every field rule holds; it throws exactly when the required keys and the three years pass but hgt has no value; validity implies the required fields |
| Passports.HairColorSpelling | day04/index.js:70 | a hair colour passes iff it is `#` followed by the six lower-case hexadecimal digits, zero-padded, of some number below 2^24 |
| Passports.PassportIdSpelling | day04/index.js:71 | a passport ID passes iff it is the nine-digit zero-padded spelling of some number below 10^9, and every such spelling reads back as its number, so leading zeros are kept |
| Passports.EyeColorsListed | day04/index.js:73 | an eye colour passes iff it is one of amb, blu, brn, gry, grn, hzl, oth, and there are exactly seven of them |
| Passports.CidIrrelevant | day04/index.js:93-117 | changing or adding cid changes neither check |
| Passports.ValidAtMostRequired | day04/index.js:125-137 | the part 2 count never exceeds the part 1 count |
| Passports.ValidCountFails | day04/index.js:134-137 | the part 2 loop throws iff some record passes the checks before height and has a valueless hgt |
| Passports.ValidCountErr | day04/index.js:134-137 | once a prefix of the loop throws, the whole loop ends in that error |
| Passports.CountRequired | day04/index.js:125-129 | the part 1 loop counts the records that have every required key |
| Passports.CountValid | day04/index.js:134-137 | the part 2 loop counts the valid records, or ends in the error of the first record whose check throws |
| Passports.CountPassports | day04/index.js:125-137 | the two loops count records with required fields and valid records, the second propagating a throw, and part 2 <= part 1 |
| BoardingPass.RowColBits | day05/index.js:38-47 | on a well-formed pass the two rewritten slices are the first 7 and last 3 characters of its bit string |
| BoardingPass.BinaryConcat | day05/index.js:49-52 | row * 8 + col is the binary value of the 10-bit concatenation |
| BoardingPass.WellFormedSeatId | day05/index.js:38-53 | a well-formed pass has row < 128, column < 8 and ID equal to its 10-bit binary value, below 1024 |
| BoardingPass.Encode | day05/index.js:38-53 | every ID below 1024 has a well-formed pass spelling |
| BoardingPass.UnSpell | day05/index.js:41-47 | the F/B and L/R replacements undo the spelling of a bit string |
| BoardingPass.DecodeEncode | day05/index.js:38-53 | decoding the pass spelled for an ID gives the ID |
| BoardingPass.EncodeDecode | day05/index.js:38-53 | spelling the ID of a well-formed pass gives back the pass |
| BoardingPass.SeatIdInjective | day05/index.js:38-53 | two well-formed passes with the same ID are equal |
| BoardingPass.MaxId | day05/index.js:65 | the maximum is an element of the IDs and bounds every ID; the empty list has none |
| BoardingPass.Insert | day05/index.js:76 | inserting into a sorted list keeps it sorted and adds exactly the new element |
| BoardingPass.SortAscending | day05/index.js:76 | the numeric sort returns a sorted permutation of the IDs |
| BoardingPass.FindGap | day05/index.js:78-87 | no result iff no adjacent pair differs by more than one; otherwise the result is one past the first such pair |
| BoardingPass.ConsecutiveBefore | day05/index.js:78-87 | before the first gap the sorted IDs are consecutive from the smallest |
| BoardingPass.GapIsSmallestMissing | day05/index.js:78-87 | for distinct sorted IDs the reported seat is absent and every value from the smallest ID up to it is present |
| BoardingPass.NoGapConsecutive | day05/index.js:78-87 | when the loop finds no gap the sorted IDs form one consecutive run |
| BoardingPass.GapCase | day05/index.js:76-87 | for distinct IDs the first gap of the sorted list is an absent ID lying between two present ones, with everything below it present |
| BoardingPass.NoGapCase | day05/index.js:76-87 | without a gap every value between the smallest and largest ID is present |
| BoardingPass.GapResult | day05/index.js:76-87 | for distinct IDs a reported gap is the smallest absent value above the lowest ID and lies below the highest; no gap means every value between lowest and highest ID is present |
| BoardingPass.MissingSeat | day05/index.js:76-87 | for distinct IDs a seat is reported iff the IDs have a hole, and it is the smallest hole; for any IDs, no report means there is no hole |
| Customs.People | day06/index.js:35 | a group always has at least one person line |
| Customs.UnionStep | day06/index.js:37-41 | adding a person adds exactly that person's letters to the union |
| Customs.AddLetters | day06/index.js:38-40 | the inner loop adds exactly the letters of one answer line to the set |
| Customs.CountUnion | day06/index.js:31-44 | the result is the number of letters answered by at least one person |
| Customs.CommonFirst | day06/index.js:57 | the intersection starts as the letters of the first person |
| Customs.CommonStep | day06/index.js:59-70 | each further person narrows the intersection to the letters they also answered |
| Customs.KeepAnswered | day06/index.js:60-67 | the filter keeps exactly the common letters the person answered |
| Customs.CountIntersection | day06/index.js:53-73 | the result is the number of letters answered by every person |
| Customs.CommonWithinUnion | day06/index.js:31-73 | the common letters lie within the first person's letters and within the union, so part 2 per group is at most part 1 |
| Customs.SinglePerson | day06/index.js:31-73 | for a single person union and intersection are that person's letters |
| Customs.RepeatedLetter | day06/index.js:31-73 | repeating a letter a person already answered changes neither count |
| Customs.TotalsOrdered | day06/index.js:78-84 | the intersection total never exceeds the union total |
| Customs.Totals | day06/index.js:78-84 | the two sums are the per-group union and intersection sizes, and part 2 <= part 1 |
| BagRules.MatchOuter | day07/index.js:57-65 | `^(.+?) bags contain (.+)\.$` matches iff some split fits, and the captures come from the shortest first group |
| BagRules.MatchClause | day07/index.js:75-79 | `^(\d+) (.+?) bag` matches iff some digit prefix and color fit; the color is the shortest one followed by " bag" and the count is the decimal prefix |
| BagRules.ParseRule | day07/index.js:61-79 | a line parses iff the outer pattern matches, and the container is the first capture |
| BagRules.NoOtherBagsLine | day07/index.js:61-71 | the line `<c> bags contain no other bags.` matches with container c and rest `no other bags`, and parses to c with no clauses |
| BagRules.MatchedClausesAll | day07/index.js:73-79 | the clauses of a split rest are at most one per part, and when every part matches they are exactly the parts' clauses in order |
| BagRules.AddOuter | day07/index.js:68 | a container gets an empty forward entry only if it had none; existing entries and the reverse map are untouched, and consistency is kept |
| BagRules.AddEdge | day07/index.js:82-86 | the clause is appended to the container's entry, the reverse map gains exactly the edge container to inner, and both maps stay consistent |
| BagRules.AddPart | day07/index.js:74-87 | a part that matches appends its clause to the container and one that does not changes nothing |
| BagRules.AppendClauses | day07/index.js:73-87 | the container's entry gains the matched clauses in order, other entries are unchanged, both maps stay consistent |
| BagRules.AddLine | day07/index.js:60-88 | one line adds its container when it matches and appends that line's clauses to it, consistency kept |
| BagRules.BuildGraph | day07/index.js:46-88 | the forward map's keys are the containers of matching lines, each entry is all clauses for that color in line order, the reverse map holds exactly the reversed edges, and a color whose lines all say `no other bags` has an empty entry |
| BagRules.EmptyColorEntry | day07/index.js:60-71 | in the built graph, a color heading some line, whose lines all say `no other bags`, has an entry, the entry is empty, and no forward edge leaves it |
| BagAncestors.StepUp | day07/index.js:105-113 | a parent of the target or of a reachable color is reachable |
| BagAncestors.ClosedHoldsClimbs | day07/index.js:97-114 | a visited set closed under parents contains the end of every parent chain from the target |
| BagAncestors.ClosedAfterPop | day07/index.js:100-114 | after a pop and push of unvisited parents, every visited color off the stack has all its parents visited |
| BagAncestors.SoundAfterVisit | day07/index.js:108-113 | adding the parents of a visited color keeps every visited color reachable |
| BagAncestors.VisitAll | day07/index.js:108-113 | the parent loop marks every parent visited and pushes each previously unvisited one exactly once |
| BagAncestors.PopAndVisit | day07/index.js:103-113 | one iteration keeps the stack entries visited or the target, keeps visited colors reachable and closed, and either grows the visited set or shrinks the stack |
| BagAncestors.Ancestors | day07/index.js:97-116 | a color is visited iff a chain of one or more parent links leads from the target to it |
| BagAncestors.ClimbRaisesRank | day07/index.js:97-114 | in a ranked graph every parent chain strictly increases in rank |
| BagAncestors.TargetNotOwnAncestor | day07/index.js:97-116 | in an acyclic graph the target is never counted among its own containers |
| BagTotals.Inside | day07/index.js:134-139 | a color without a forward entry, or with an empty one, holds nothing |
| BagTotals.SumChildren | day07/index.js:135-139 | the child loop adds count * (1 + total of child) for each entry, leaves a sound memo, and expands each new color once |
| BagTotals.TotalInside | day07/index.js:129-143 | the memoized total equals the unmemoized recurrence; the memo stays sound, only grows, and no color is expanded twice |
| BagTotals.TotalInsideFresh | day07/index.js:129-145 | part 2 with an empty memo equals the recurrence for the queried color |
| BagTotals.InsideRankIrrelevant | day07/index.js:131-143 | the total does not depend on which acyclicity rank justifies it |
| BagTotals.SumAtLeastDirect | day07/index.js:137-139 | the sum over a list of entries is at least the sum of their counts |
| BagTotals.InsideAtLeastDirect | day07/index.js:131-143 | a bag holds at least as many bags as its own rule lists directly |
| BagTotals.EmptyColorTotal | day07/index.js:131-143 | in the built graph, a color whose lines all say `no other bags` has an empty entry, no forward edge, and holds 0 bags |
| BagTotals.ChainExample | day07/index.js:131-143 | A holding 1 B and B holding 2 C gives 1 * (1 + 2 * (1 + 0)) = 3 bags inside A |

## Left out

- Day 1: the printed products `num * complement` and `numbers[i] * numbers[j] * numbers[k]` are not given functions of their own. The searches return the entries, or the indices, that are multiplied.
- Reading the input file, `trim()` of the whole input, and `console.log`: every script is modelled from its list of lines, blocks or groups onward, and results are returned rather than printed.
- `Number(...)` and `parseInt` are modelled only on decimal or binary digit strings. Signs, surrounding whitespace, decimal points, exponents, hexadecimal and `Infinity` spellings are treated as not-a-number (`None`), except that the empty string counts as 0 where `Number("")` is taken.
- Day 1: the entries are taken as integers. A line that `Number` cannot read (NaN) is not modelled.
- Days 1, 3 and 7: JavaScript numbers are IEEE doubles. The model uses unbounded integers, so rounding of products and totals above 2^53 is not modelled.
- Strings are sequences of code points, while JavaScript indexes and measures strings in UTF-16 code units. For characters outside the Basic Multilingual Plane the model therefore differs at `password[min - 1]` and `password[max - 1]` (day 2), at `grid[row][col % width]` with `width = grid[0].length` (day 3), at `pass.slice(0, 7)` and `pass.slice(7)` (day 5), and at the `.` of the regular expressions, which without the `u` flag matches a single code unit. Iteration with `for ... of` and `new Set(string)` go by code point, as the model does.
- The regular-expression engine is not modelled in general. Each of the five patterns has its own matcher, and a contract or lemma states what the pattern accepts.
- Iteration order of JavaScript `Set` and `Map` is not modelled. The reverse map holds sets, and the order in which day 7 pushes parents does not change the visited set.
- Object keys such as `__proto__`, and keys that inherit from `Object.prototype` (`"constructor" in {}`), are treated as ordinary keys.
- Day 3: for a grid whose first row is empty, the source computes `col % 0` (NaN), reads `undefined` and counts no tree. The model counts none as well. The numeric value NaN itself is not represented.
- Toboggan.CountTrees: the loop requires `down >= 1`, because with a zero step the source never terminates.
- Passports.IsYearInRange: characterised only for a positive lower bound. Every call uses one, and for a bound of 0 or less the empty string, read as 0, would also pass.
- BoardingPass.MaxId: works on the IDs of passes that decode. A NaN ID makes `Math.max` NaN, and that is not modelled.
- BoardingPass.SortAscending: models the numeric comparator on integer IDs. The handling of NaN IDs by `sort` is not modelled.
- BoardingPass.MissingSeat: the conclusions about a reported seat assume the IDs are distinct. With duplicates the source's `next !== current + 1` also fires at a repeated ID: `[1, 1, 2]` has no hole, yet 2 is reported. For such lists the contract promises only that no report means no hole.
- BagTotals.TotalInside: requires an acyclicity rank on the whole forward map. The source also returns when the map has a cycle that the queried color cannot reach. For example, with `shiny gold` holding nothing, `a` holding `b` and `b` holding `a`, it returns 0. That case is not modelled. When a cycle is reachable from the queried color, the source recurses until the JavaScript stack overflows with a `RangeError`, and that is not modelled either.
- BagTotals.TotalInsideFresh: has the same acyclicity requirement as `TotalInside`, for the same reasons.
- Part 1 of day 7 and part 2 of day 7 take the graph and the target color as parameters; the constant `"shiny gold"` is the caller's choice.
