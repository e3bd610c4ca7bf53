# Subwords of a word

A model of `get_all_subwords(word, dictionary)` from the superbot chat bot. The bot
receives a word and replies with every dictionary word that can be read off it by
deleting at least one letter and keeping the others in their order ("слова в слове").
`get_all_subwords` is a Python generator. It takes `n_chars` from `range(len(word))`.
For each `n_chars` it runs through `itertools.combinations(word, n_chars)` and joins each
tuple into a string. It yields that string if the string is in the dictionary and is not
in the local set `subwords` yet, and then adds it to the set.

The project has two modules:

- `Combinatorics` (`combinatorics.dfy`) models `itertools.combinations` on positions.
  `Combinations(n, k)` lists the strictly increasing k-sequences over `[0, n)` in
  lexicographic order. Python produces the tuples of characters standing at those positions.
  The lemmas prove that every listed choice is strictly increasing and every such choice is
  listed. They also prove there are `Binomial(n, k)` of them, in strictly increasing
  lexicographic order.
- `Subwords` (`subwords.dfy`) models the generator. `GetAllSubwords` is a method with
  the source's two nested loops and the `subwords` set as loop state. It appends each
  yielded string to the sequence it returns. Its postcondition ties the result to the
  specification function `AllSubwords` and states the promised properties directly.
  `AllSubwords` is built from the same steps as the loops: `Candidates` joins the chosen
  positions (`''.join`), `CandidatesBelow` concatenates the candidates for lengths `0 ..
  m-1`, and `Dedup` keeps a candidate when it is in the dictionary and has not been kept
  before. `IsSubsequence` is an independent definition: some strictly increasing positions
  of `word` spell the string. The lemmas relate `AllSubwords` to it.

`combinations` takes any increasing positions, so the model yields subsequences, not
only substrings. The empty string is a candidate (`n_chars == 0`). It is
yielded when it is in the dictionary and the word is not empty, as in the code.

## Model

| member | source | states |
|---|---|---|
| Combinatorics.Combinations | bot.py:33 | `combinations(range(n), k)` produces exactly C(n, k) tuples (Pascal's rule). CombinationsSound, CombinationsComplete and CombinationsSorted below characterise which tuples, and in what order |
| Combinatorics.CombinationsSound | bot.py:33 | every position tuple that `combinations(word, k)` produces has k positions of the word in strictly increasing order |
| Combinatorics.CombinationsComplete | bot.py:33 | every strictly increasing choice of k positions of the word is produced by `combinations(word, k)` |
| Combinatorics.CombinationsSorted | bot.py:33 | the tuples come in strictly increasing lexicographic order of positions, so no choice is produced twice |
| Subwords.GetAllSubwords | bot.py:25-37 | running the generator to completion yields `AllSubwords(word, dictionary)`. A string is yielded iff it is in the dictionary, is a subsequence of the word and is strictly shorter than the word. Nothing is yielded twice, and shorter strings come first. The loop invariants keep `subwords` equal to the set of strings yielded so far |
| Subwords.AllSubwords | bot.py:25-37 | everything yielded is a dictionary word strictly shorter than the word. SubwordsMembers, SubwordsDistinct and SubwordsByLength below give the full characterisation |
| Subwords.Pick | bot.py:33-34 | `''.join` of the characters at the chosen positions has one character per position, and is a subsequence of the word when the positions increase |
| Subwords.Candidates | bot.py:33-34 | the joined tuples of `combinations(word, k)` are C(len(word), k) strings, each of length k. CandidatesSound and CandidatesComplete below say which strings they are |
| Subwords.CandidatesBelow | bot.py:32-34 | every candidate tried while `n_chars` runs through `range(m)` is shorter than m. CandidatesBelowMember and CandidatesBelowByLength below say which candidates, and in what order |
| Subwords.Dedup | bot.py:30-37 | only candidates that are in the dictionary are yielded, and no more strings than there are candidates. DedupMembers, DedupDistinct and DedupByLength below complete the characterisation |
| Subwords.DedupMembers | bot.py:35-37 | a string is yielded iff it is among the candidates and in the dictionary (both directions) |
| Subwords.DedupDistinct | bot.py:35-37 | checking `subwords` before yielding and adding after means no string is yielded twice |
| Subwords.DedupByLength | bot.py:35-37 | yielding keeps the order of the candidates, so candidates ordered by length give output ordered by length |
| Subwords.DedupEmptyDictionary | bot.py:35 | with an empty dictionary nothing passes the membership test, so nothing is yielded |
| Subwords.CandidatesSound | bot.py:33-34 | every joined tuple of `combinations(word, k)` has length k and is a subsequence of the word |
| Subwords.CandidatesComplete | bot.py:33-34 | every subsequence s of the word is among the joined tuples of `combinations(word, len(s))` |
| Subwords.CandidatesBelowMember | bot.py:32-34 | the candidates tried for `n_chars` in `range(m)` are exactly the subsequences of the word shorter than m |
| Subwords.CandidatesBelowByLength | bot.py:32-34 | candidates are tried in order of increasing length |
| Subwords.SubwordsMembers | bot.py:32-37 | a string is yielded iff it is in the dictionary, is a subsequence of the word, and is strictly shorter than the word. This covers membership, the subsequence relation, the length bound and completeness |
| Subwords.SubwordsDistinct | bot.py:30-37 | no string is yielded twice in one call |
| Subwords.SubwordsByLength | bot.py:32-37 | all matches of length k are yielded before any match of length k + 1 |
| Subwords.WordIsNotItsOwnSubword | bot.py:32 | the word itself is never yielded, even when it is in the dictionary, because `range(len(word))` stops at `len(word) - 1` |
| Subwords.EmptyWordYieldsNothing | bot.py:32 | an empty word yields nothing |
| Subwords.EmptyDictionaryYieldsNothing | bot.py:35 | an empty dictionary yields nothing |
| Subwords.PobedaSubsequences | bot.py:27-28 | да, еда and обед are subsequences of победа |
| Subwords.PobedaExample | bot.py:27-28 | `get_all_subwords('победа', {'обед', 'еда', 'да', 'звезда'})` yields exactly да, еда, обед in that order |

## Left out

- Laziness: the generator yields one string at a time, and the caller sends each string
  as it arrives. The model returns the whole sequence of yielded strings, in yield order.
  Interleaving with the consumer and stopping early are not modelled.
- `load_dict` (bot.py:12-15): an HTTP GET and JSON parsing. This is network I/O and a
  foreign parser. The dictionary is a parameter (`set<string>`).
- The module globals `DICT_URL`, `DICTIONARY`, `TOKEN` and `bot` (bot.py:18-22): process
  start-up, an environment lookup and construction of the messaging client.
- The handlers `start_handler` and `process` and the `bot.polling()` loop (bot.py:40-62):
  messaging transport. The `message.text.lower()` call in `process` is a library Unicode
  operation. The model takes the word as given, already lower-case.
- Logging (bot.py:9, 52, 55, 59): side effects only.
- bot.py has no permutation enumeration and no input validation, so the model has neither.
- Running time and memory, which are exponential in the word's length.
- Characters: Python strings are sequences of code points, and Dafny's `char` is a
  Unicode scalar value. A Python string can hold lone surrogates (U+D800 to U+DFFF), which
  a Dafny `char` cannot, so the model covers only words and dictionaries without them.
  Strings are compared character by character in both, and there is no normalisation in
  either.
