# Propose-and-reject matching of advertisers to people, in Dafny

This project models the `Matching` class of `PippioEngineeringProblem.cs`. The class matches advertisers to people by a click-through-rate (CTR) score. It runs a Gale-Shapley deferred-acceptance loop in which the advertisers propose. The model has two parts.

**Scoring** (`numbers.dfy`, `scoring.dfy`):
- `GetCTR(person, advertiser)` counts the ASCII vowels and consonants of the person's name.
- It takes 1.5 per vowel when the advertiser's name has even length, and 1 per consonant when it is odd.
- It multiplies the result by 1.5 once when some factor other than 1 of the advertiser's name length is among the factors of the person's name length.
- `GetFactors` finds the factors by trial division up to the floor square root.
- The model proves that this factor test is exactly "both lengths are positive and their gcd exceeds 1".
- It proves that `GetFactors` lists exactly the positive divisors, each once.

**Matching** (`collections.dfy`, `matcher.dfy`):
- The constructor gives every advertiser a cursor 0 and a copy of the people list sorted by non-increasing `GetCTR(advertiser, person)`.
- `PrintMaxMatching` keeps a list of free advertisers and walks it by index while it changes under the walk.
- Each visited advertiser proposes to the next person on its list. An unmatched person accepts. A matched person switches only when the proposer's score for them is strictly higher than the incumbent's. The displaced advertiser is appended to the free list.
- At the end it adds up `GetCTR(person, advertiser)` over the matching.

The model keeps that structure:
- a `Matching` class whose methods update the `cursor` dictionary in place;
- the free list as a `seq` that is walked by index and changed in place (`Remove` deletes the first occurrence; the displaced advertiser is appended);
- the matching as a `map` from person to advertiser.

The proofs establish several properties:
- One loop invariant (`Engaged`) holds throughout:
  - the free list and the matched advertisers partition the advertisers;
  - every advertiser that is not free is matched to the last person it proposed to;
  - every person an advertiser has proposed to is matched to an advertiser that scores at least as high for them.
- The loop terminates when names are distinct and there are no more advertisers than people.
- At the end every advertiser is matched to a different person.
- The matching is stable in the weak sense the algorithm gives: no advertiser prefers a person who prefers that advertiser to their own partner.
- The sum equals the sum of the scores of the matched pairs.

Scores are exact reals. Every score is a multiple of 0.25, so the double arithmetic of the source is exact at realistic sizes.

## Model

| member | source | states |
|---|---|---|
| Numbers.ISqrt | PippioEngineeringProblem.cs:112 | the truncated square root is the largest r with r*r <= n |
| Numbers.CommonDivisorIffGcd | PippioEngineeringProblem.cs:95-105 | two positive lengths have a common divisor other than 1 exactly when their gcd exceeds 1 |
| Scoring.LetterCounts | PippioEngineeringProblem.cs:82-89 | each ASCII letter is counted once, as a vowel (the ten-letter test `IsVowel` of lines 124-127) or as a consonant, and nothing else is counted, so vowels + consonants <= length |
| Scoring.FactorsUpToDistinct | PippioEngineeringProblem.cs:113-120 | the trial division never lists a factor twice; in particular a square root is added once |
| Scoring.FactorListIsDivisors | PippioEngineeringProblem.cs:110-122 | the list holds exactly the positive divisors of n, each once, and is empty for n = 0 |
| Scoring.GetFactors | PippioEngineeringProblem.cs:110-122 | the loop builds the trial-division list, which holds exactly the positive divisors, without repeats |
| Scoring.SharesFactorIffGcd | PippioEngineeringProblem.cs:97-105 | the factor-list test (a factor other than 1 of the advertiser length among the person length's factors) holds iff both lengths are positive and their gcd exceeds 1 |
| Scoring.CtrByFactorLists | PippioEngineeringProblem.cs:93-107 | the score is the parity-chosen base rate, times 1.5 exactly when the factor-list test succeeds |
| Scoring.CtrBound | PippioEngineeringProblem.cs:80-108 | a score lies between 0 and 2.25 per character of the person's name |
| Scoring.GetCtr | PippioEngineeringProblem.cs:80-108 | the counting loop and the break loop return the specified score |
| Collections.DistinctDelete | PippioEngineeringProblem.cs:41 | List.Remove of an element at slot i of a list without repeats closes the gap at i and leaves the other elements, without repeats |
| Matcher.InsertDescending | PippioEngineeringProblem.cs:75 | inserting into a list ordered by non-increasing GetCTR(advertiser, person) keeps that order and adds exactly one copy of the element |
| Matcher.SortDescending | PippioEngineeringProblem.cs:75 | the sort returns a permutation of its input ordered by non-increasing GetCTR(advertiser, person), with no claim on ties |
| Matcher.SortedIsRanking | PippioEngineeringProblem.cs:72-75 | the sorted copy of the people list is the advertiser's ranking: one slot per person, a permutation of the people, non-increasing in GetCTR(advertiser, person) |
| Matcher.Matching.constructor | PippioEngineeringProblem.cs:15-21 | after construction every advertiser has cursor 0 and a ranking of the people |
| Matcher.Matching.GenerateAdvertisersPreferenceList | PippioEngineeringProblem.cs:69-77 | both dictionaries are keyed by exactly the advertisers; each list is a ranking; each cursor is 0 |
| Matcher.Matching.Propose | PippioEngineeringProblem.cs:32-56 | one pass of the loop body changes the cursor, free list and matching as the proposal step prescribes |
| Matcher.ProposalProgress | PippioEngineeringProblem.cs:33-56 | an exhausted advertiser changes nothing; otherwise its cursor moves on by exactly one; a matched person stays matched; a partner change is a strict score improvement for the person; the free list never grows |
| Matcher.PartitionAfterAcceptance | PippioEngineeringProblem.cs:38-42 | an unmatched person taking the proposer keeps the free list and the matched advertisers disjoint, without repeats, and the matching injective |
| Matcher.PartitionAfterDisplacement | PippioEngineeringProblem.cs:45-54 | a switch removes the proposer from the free list and appends the displaced advertiser, keeping the partition |
| Matcher.FreeUnlessMatchedAfterAcceptance | PippioEngineeringProblem.cs:38-54 | after an acceptance every advertiser off the free list is matched to the last person it proposed to |
| Matcher.HonouredAfterAcceptance | PippioEngineeringProblem.cs:38-54 | after an acceptance every person proposed to is matched to an advertiser scoring at least as high for them |
| Matcher.HonouredAfterRejection | PippioEngineeringProblem.cs:47-55 | a rejection (a tie included) keeps every proposal honoured |
| Matcher.ProposalKeepsEngaged | PippioEngineeringProblem.cs:27-56 | every pass of the loop body keeps the loop invariant |
| Matcher.ProposalUsesSlack | PippioEngineeringProblem.cs:56 | a proposal that is made uses up one of the proposals still to make |
| Matcher.FreeNotExhausted | PippioEngineeringProblem.cs:30-33 | with distinct names and no more advertisers than people, a free advertiser always has someone left to propose to |
| Matcher.Round | PippioEngineeringProblem.cs:31-57 | a pass of the for loop visits slot i, then slot i + 1 of the free list as the proposal left it (skipping the element that moves into slot i after a Remove, visiting an appended advertiser when it lands past slot i); across it no cursor goes down, no advertiser gains or loses a cursor and no matched person becomes unmatched |
| Matcher.Matching.ProposeRound | PippioEngineeringProblem.cs:31-57 | the index walk over the changing free list leaves the cursors, free list and matching exactly as Round prescribes |
| Matcher.RoundSkipsShifted | PippioEngineeringProblem.cs:31-41 | with free list [a, b] and a accepted, the pass ends with free list [b] and b has not proposed: the element that moves into the visited slot is skipped |
| Matcher.RoundKeepsEngaged | PippioEngineeringProblem.cs:31-57 | a whole pass of the for loop keeps the loop invariant |
| Matcher.RoundUsesSlack | PippioEngineeringProblem.cs:30-57 | a pass whose first advertiser has someone left to propose to leaves strictly fewer proposals still to make, so the while loop terminates |
| Matcher.EngagedAtStart | PippioEngineeringProblem.cs:27-28 | all advertisers free, nobody matched and all cursors 0 satisfy the invariant |
| Matcher.AllMatched | PippioEngineeringProblem.cs:30 | when the free list is empty every advertiser is matched, each to a different person |
| Matcher.EngagedIsStable | PippioEngineeringProblem.cs:24-25 | under the invariant no advertiser strictly prefers a person whose own partner scores lower for them than that advertiser does |
| Matcher.TotalCtrRemove | PippioEngineeringProblem.cs:61-64 | the sum over the matching does not depend on the order the entries are visited in |
| Matcher.SumCtr | PippioEngineeringProblem.cs:60-64 | the loop adds GetCTR(person, advertiser) over every entry of the matching |
| Matcher.Run | PippioEngineeringProblem.cs:30-58 | the while loop repeats passes of the for loop from slot 0 until the free list is empty; with distinct names and no more advertisers than people it ends, with the free list empty and the loop invariant holding |
| Matcher.RunStep | PippioEngineeringProblem.cs:30-58 | one pass keeps the invariant, leaves strictly fewer proposals to make, and the loop from the new state returns what the loop from the old state returns |
| Matcher.Matching.MaxMatching | PippioEngineeringProblem.cs:26-66 | the loop returns exactly the matching Run gives from all advertisers free, nobody matched and all cursors 0 (so the index walk, and with tied scores the order of proposals, fixes the result); every advertiser is matched to a distinct person, the matching is stable, every proposal is honoured, and the sum is the sum of the pair scores |

## Left out

- The `Test.Main` entry point (lines 131-145) reads two files and constructs the matcher. It is I/O; the model takes the two lists as parameters.
- The `Console.WriteLine` output (lines 62 and 65) is not modelled. The model returns the matching and the sum instead.
- Scores are exact reals rather than doubles. All values are multiples of 0.25, so no rounding occurs at realistic sizes, and the order in which the sum visits the dictionary does not matter.
- `Math.Sqrt` followed by the cast to int is modelled as the floor square root.
- .NET's introsort is not modelled. `List.Sort` is specified only by its result: a permutation with non-increasing scores. The model sorts by insertion, and tie order is not claimed.
- Names are sequences of Dafny `char`, which are Unicode scalar values, whereas a C# `char` is a UTF-16 code unit. A name with characters outside the Basic Multilingual Plane has a different length in the model than in the source. Such characters are neither vowels nor ASCII letters either way.
- 32-bit `int` overflow of the counters and lengths is not modelled. It needs names of over two billion characters.
- Matcher.Matching.MaxMatching: requires distinct people, distinct advertisers, no more advertisers than people, and all cursors 0, as after construction.
  - The source keys everything by name, so duplicate names collapse.
  - With more advertisers than people, an exhausted advertiser is skipped without being removed, and the `while` loop never ends.
  - The model proves termination only under these conditions. Non-terminating runs are not modelled.
- Matcher.Matching.Propose: requires the visited advertiser to have a cursor and a list of the people's length, which the construction provides.
- Matcher.Matching.ProposeRound: requires every free or matched advertiser to have a cursor and a list of the people's length (`Proposable`), which the construction provides and the loop invariant implies (`EngagedIsProposable`).
