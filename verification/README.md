# Circuit search over storage-object metadata, in Dafny

The post-text function of circuity searches for a *circuit* in a graph whose nodes are
storage objects. Each object's metadata maps composite keys to the addresses
(`self_link`s) of other objects. For a requested character, the function does these things:

- it counts the character nodes located from the client's origins;
- it climbs and descends from each located node, with the node's count as its retry
  budget;
- it walks forward until it meets the origin (a circuit through the origin: success) or
  the character node (a circuit that leaves the origin out: failure), within a hard
  step limit.

This project models the parts of `functions/post-text/main.py` that have a definite
meaning, as pure functions and small methods over abstract addresses. The graph
operations the file calls but never defines are parameters. The project then proves
what these parts promise.

Modules, one per concern of the file:

- `Outcomes`: addresses (`string`), the index error, and `Result`.
- `PyText`: Python's `s[:1]`, the `<` order on strings, and `split` with a
  one-character separator. `Split` is proved the inverse of `Join`.
- `NodeMetadata`: metadata as a list of entries in dictionary order. It holds the
  character-key selection of `attempt_to_create_circuit_new` and the destination/weight
  map of `take_step`.
- `CircuitCheck`: `check_circuit_validity`, both as written and with the step limit
  passed on (see Findings).
- `CircuitSearch`: the retry driver of `attempt_to_create_circuit`, one try as
  climb → descend → check, and the per-candidate loop of `main`.
- `Observations`: the occurrence-counting loop of `main`.
- `CharacterRegistry`: `get_character_object`, create-if-absent on the registry.

The graph phases `find_node_that_goes_up`, `step_up`, `find_node_that_does_not_go_down`
and `step_forward` are fields of a `Phases` record. Each field is a function of the
try's remaining-tries value and an address. The try index stands for the random
choices that let one try differ from the next. `find_character_node` is a parameter
`locate`, and `create_character_object` is a parameter `create`.

The model follows the code in three places:

- the character node is the lexicographically greatest matching key, which the comment
  at `main.py:89` calls the highest value;
- the weight is the second `_`-separated field whatever the key's schema;
- a budget of `t` allows `max(1, t + 1)` tries.

## Model

| member | source | states |
|---|---|---|
| `PyText.Split` | functions/post-text/main.py:38 | `key.split('_')` yields at least one field and no field contains `_`. Joining the fields with `_` gives the key back. There is more than one field exactly when the key contains `_`. |
| `PyText.SplitJoin` | functions/post-text/main.py:38 | Splitting a join of `_`-free fields gives back the same fields, so split and join are inverses. |
| `PyText.BelowTotal` | functions/post-text/main.py:90 | Python's string order is total on distinct strings, so `sorted(..., reverse=True)[0]` has one greatest key. |
| `PyText.BelowTransitive` | functions/post-text/main.py:90 | Python's string order is transitive. |
| `NodeMetadata.CharacterKeys` | functions/post-text/main.py:88 | A key is kept exactly when some metadata entry has that key and the key's first character, `key[:1]`, equals the requested character. |
| `NodeMetadata.Greatest` | functions/post-text/main.py:90 | On an empty list the result is an IndexError. Otherwise the result is an element of the list, and every other element is below it in Python's string order. |
| `NodeMetadata.Lookup` | functions/post-text/main.py:91 | `metadata[key]` is an entry of the metadata and carries that key. |
| `NodeMetadata.SelectCharacterEntry` | functions/post-text/main.py:86-91 | The selection fails with IndexError exactly when no key starts with the character. Otherwise the chosen entry belongs to the metadata and its key starts with the character. That key is greater than or equal to every other matching key. |
| `NodeMetadata.WeightField` | functions/post-text/main.py:38 | `path.split('_')[1]` is defined exactly when the key contains `_`; otherwise it is an IndexError. The field is the `_`-free text after the first `_`, ending at the next `_` or at the end of the key. |
| `NodeMetadata.Destinations` | functions/post-text/main.py:38 | The comprehension raises IndexError exactly when some key has no `_`. Otherwise its keys are exactly the destinations named in the metadata. |
| `NodeMetadata.DestinationsKeepLastWeight` | functions/post-text/main.py:38 | When several keys name one destination, the destination's weight is the weight field of the last such key. |
| `CircuitCheck.CheckCircuitValidity` | functions/post-text/main.py:147-159 | A returned step count lies strictly above the starting count and at most at the limit. A raised error names the caller's limit. `True` is returned only at the origin. `False` is returned only at the character node, and only when that node is not the origin. |
| `CircuitCheck.CheckCircuitValidityStopsAtFirstStop` | functions/post-text/main.py:149-159 | The walk raises ValueError exactly when none of the nodes it may still visit is the origin or the character node. When it returns, no earlier node was either of them. |
| `CircuitCheck.NoStopBeforeShift` | functions/post-text/main.py:157-159 | The first `n` nodes from a node avoid both targets exactly when the node itself does and the first `n - 1` nodes from its successor do. |
| `CircuitCheck.CheckFromOriginSucceedsAtOnce` | functions/post-text/main.py:147-154 | Starting at the origin with the default count and limit gives `(True, 1)`. |
| `CircuitCheck.OriginIsCharacterNeverInvalid` | functions/post-text/main.py:153-156 | The origin is tested first, so when it is the character node the walk never returns `False`. |
| `CircuitCheck.CheckCircuitValidityAsWritten` | functions/post-text/main.py:147-159 | The code as written: a raised error names either the caller's limit or the default 32, and a returned count lies above the starting count. |
| `CircuitCheck.AsWrittenAgreesAtDefaultLimit` | functions/post-text/main.py:147-159 | At the default limit of 32 the code as written and the corrected walk give the same verdict. |
| `CircuitCheck.AsWrittenOverrunsSmallLimit` | functions/post-text/main.py:150-159 | Take a caller's limit below 32 whose first `limit` nodes avoid both targets, with the next node the origin. The code as written returns `(True, limit + 1)`, while the corrected walk raises. |
| `CircuitSearch.Retry` | functions/post-text/main.py:135-145 | The verdict is the verdict of one of the allowed tries. It is a failure only if every allowed try failed. |
| `CircuitSearch.RetryStopsAtFirstDecisiveTry` | functions/post-text/main.py:138-143 | The first try that does not fail decides the verdict, whether it succeeds or raises. No later try is made: exactly `t - s + 1` tries are made. |
| `CircuitSearch.RetryExhaustsBudget` | functions/post-text/main.py:138-145 | When every try fails, exactly `max(1, tries_remaining + 1)` tries are made, and the last try's `(False, step_count)` is returned. |
| `CircuitSearch.TriesWithinBudget` | functions/post-text/main.py:138-145 | A call makes between 1 and `max(1, tries_remaining + 1)` tries. |
| `CircuitSearch.AttemptToCreateCircuit` | functions/post-text/main.py:126-145 | A returned step count lies in 1..32. An uncaught ValueError names the limit 32. When the origin is the character node, the result is never a failure. |
| `CircuitSearch.SearchCandidates` | functions/post-text/main.py:231-234 | The given candidates, in the order given, each get one attempt whose budget is the candidate's observation count. All but the last attempt returned. The loop stops early only after an attempt raised. |
| `CircuitSearch.SearchTriesBoundedByCounts` | functions/post-text/main.py:214-234 | With non-negative counts, the loop makes at most (sum of counts) + (number of candidates) tries. After counting, that sum is the number of origins. |
| `Observations.CountCharacterObjects` | functions/post-text/main.py:214-229 | The keys are exactly the distinct located addresses. Each count is the number of origins that located that address, and is at least 1. The insertion order lists each key exactly once, and it is the located addresses with repeats dropped, each kept where it first occurs. The counts sum to the number of origins. |
| `Observations.FirstOccurrences` | functions/post-text/main.py:228-229 | The order in which a dictionary first receives each key: every located address appears in it, nothing else does, and nothing appears twice. |
| `Observations.FirstOccurrencesInFirstLocatedOrder` | functions/post-text/main.py:214-229 | The keys in that order are strictly increasing in the position at which each was first located. |
| `Observations.FirstOccurrencesAppend` | functions/post-text/main.py:225-229 | Locating a node already seen leaves the insertion order alone. Locating a new node appends it at the end. |
| `Observations.TalliesSeenAgain` | functions/post-text/main.py:225-226 | Incrementing a node already counted keeps the dictionary a correct tally of one more located node. |
| `Observations.TalliesFirstSeen` | functions/post-text/main.py:228-229 | Adding a new node with count 1 at the end of the order keeps the dictionary a correct tally. |
| `Observations.TalliesObserve` | functions/post-text/main.py:225-229 | One pass of the loop body, in either branch of the truthiness test, keeps the dictionary a correct tally of one more located node. |
| `Observations.TallyTallies` | functions/post-text/main.py:214-229 | For every sequence of located nodes, the loop leaves a correct tally: the right keys and counts, each key once in first-located order, and a total equal to the number of nodes. |
| `Observations.FirstIndexIsFirst` | functions/post-text/main.py:228-229 | No position before a node's first position holds that node, so the position used for insertion order is the first time the node was located. |
| `Observations.FirstIndexAppend` | functions/post-text/main.py:228-229 | Locating one more node leaves the first position of every node already seen unchanged, and a new node's first position is the end. |
| `Observations.SumOverIncrement` | functions/post-text/main.py:225-226 | Adding one to the count of a key listed once adds one to the total. |
| `CharacterRegistry.GetCharacterObject` | functions/post-text/main.py:187-195 | A new object is created exactly when the character has no truthy entry. The returned URI is what the registry then holds under the character. An existing entry leaves the registry unchanged. Otherwise the created URI is stored, and no other entry changes or appears. |
| `CharacterRegistry.GetCharacterObjectIdempotent` | functions/post-text/main.py:189-195 | A second call with the same character returns the same URI without creating again, provided the created URI is not empty. |
| `CharacterRegistry.EmptyCreatedUriIsCreatedAgain` | functions/post-text/main.py:190 | An empty created URI is falsy, so the next call for that character creates again. |

## Findings

| source | as written | input that shows it | evidently intended | confidence | as-written member | corrected member |
|---|---|---|---|---|---|---|
| functions/post-text/main.py:159 | The recursive call of `check_circuit_validity` passes `step_count` but not `step_limit`. Every node after the first is therefore checked against the default limit of 32. | `step_limit=1`, starting at a node that is neither origin nor character node, whose `step_forward` is the origin: the call returns `(True, 2)`, past the limit of 1. | Pass `step_limit` on, so that the caller's firm limit holds at every step. | not executed; high, because the comment at line 148 calls the limit firm | `CircuitCheck.CheckCircuitValidityAsWritten`, `CircuitCheck.AsWrittenOverrunsSmallLimit` | `CircuitCheck.CheckCircuitValidity` (used by `CircuitSearch.TryOnce`) |

`attempt_to_create_circuit` calls the check with the default limit only. There, the two
definitions agree (`CircuitCheck.AsWrittenAgreesAtDefaultLimit`).

## Left out

- HTTP request parsing in `main` (lines 197-212) and all of `functions/post-skeet/main.py`: request plumbing. Line 212 calls `attempt_to_create_circuit` with two arguments where three are needed.
- The storage client and the registry download at import time (lines 14-20): I/O.
- `create_character_object` (lines 180-185): a blob upload, modelled as the parameter `create`. Its f-string has no braces, so every character writes the same blob `/source_characters/$character`.
- The weighted random choice in `take_step` (lines 39-43): randomness over floats. Only the destination-to-weight map of line 38 is modelled. The weights stay strings there, as in the source.
- `find_node_that_goes_up` (it returns the `NotImplementedError` class), `find_character_node` (it returns nothing), and the undefined `step_up`, `find_node_that_does_not_go_down` and `step_forward`: these have no behaviour to model, so they are the `Phases` fields and `locate`.
- Randomness inside one walk: `CircuitSearch.TryOnce` treats each phase as a function of the try and an address, and nothing finer.
- `take_step_recursive` (lines 45-72), the string-literal block (lines 99-124), and the rest of `attempt_to_create_circuit_new` (lines 84, 94-98): they use undefined names or call `take_step` with the wrong number of arguments.
- The repeated phase calls in `main` (lines 236-246) and the `ups` block (lines 258-267): they use undefined names and invalid `tuple`/`itemgetter` calls.
- The undefined `node_address` read at lines 211 and 217: `Observations.CountCharacterObjects` locates from each `origin_address` instead, which is what the loop evidently means.
- CircuitSearch.Retry: does not model CPython's recursion limit of 1000 frames. Each failed try adds a frame (line 143) and each check adds up to 32 more (line 159), so a budget near 1000, which the client controls through the observation count, raises RecursionError in the source where the model returns a verdict. Dafny's integers and recursion have no such bound.
- The missing colon at line 231 and the missing `random` and `logging` imports: the file does not load as written. The model covers each function's logic.
