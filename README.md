# ModelDiscussionSystem decision logic, in Dafny

`ModelDiscussionSystem` asks three language models (OpenAI, Claude and Gemini)
the same prompt. It hides which model wrote which answer behind the labels
R1, R2 and R3, lets the models discuss the anonymous answers, reads from the
discussion which label they chose and which improvements they suggest, and
then asks one model for a final, refined answer. This project models the
decision logic of that round trip and proves properties of it:

- `Analysis.dfy`: `_analyze_discussion`. It covers the tally of the labels
  each discussion reply says it "chose" or "prefers", the refinements cut out
  after an "improvements:" or "refinements:" marker, the most frequent label,
  and the distinct refinements joined by newlines. The two lists form specification
  functions (`Tally`, `Refinements`). The method `AnalyzeDiscussion` keeps
  the program's loops and is proved against those functions.
- `Discussion.dfy`: the class `ModelDiscussionSystem`. It holds the two maps
  built by `__init__`, the anonymous labelling of the first answers
  (`get_initial_responses`), the template of `_create_final_prompt`, and the
  choice of the model for the last round (`get_final_response`).
- `PyText.dfy`: the Python string operations the analysis relies on, over
  ASCII: `lower`, `in`, `split(sep)[1]`, `strip` and `join`.
- `PyDict.dfy`: a Python `dict` as an insertion-ordered list of pairs, with
  store, lookup, construction from items and inversion.
- `Wrappers.dfy`: `Option` and `Result`.

Raised exceptions become `Failure` values. `max` of an empty set gives
`NoConsensus`, and a missing key gives `KeyError(key)`. `random.shuffle` is a
permutation passed in as a parameter. The backend replies are the strings the
methods receive.

Where the program does not fix an order (the order of a Python `set`), the
methods choose with `:|` and the contracts leave the choice open. This covers
which of several tied labels wins and the order of the joined refinements.

## Model

| member | source | states |
|---|---|---|
| PyText.Lower | modelDiscussion.py:127 | `response.lower()` keeps the length, lowers each letter and leaves no capital letter |
| PyText.Contains | modelDiscussion.py:127 | `pat in s` holds exactly when `pat` occurs at some position of `s` |
| PyText.FirstIndex | modelDiscussion.py:132 | the position where `split` cuts is an occurrence of the separator, and no earlier position is one |
| PyText.SplitSecond | modelDiscussion.py:132 | `split(sep)[1]` is the slice that starts right after the first separator and ends at the next separator (searched from there) or at the end; no separator starts inside it |
| PyText.Strip | modelDiscussion.py:132 | `strip()` is a slice of its input with only whitespace before and after it, and it neither starts nor ends with whitespace |
| PyText.JoinContainsPart | modelDiscussion.py:143 | every part occurs verbatim in `sep.join(parts)` |
| PyText.Join | modelDiscussion.py:143 | `sep.join(parts)` of a non-empty list is as long as the parts together plus one separator between each two |
| PyDict.Lookup | modelDiscussion.py:63 | a lookup finds nothing exactly when the key is absent; what it finds is stored under that key |
| PyDict.LookupItem | modelDiscussion.py:63 | in a dict with distinct keys, the lookup of `k` yields `v` exactly when the item `(k, v)` is present |
| PyDict.StoreLookup | modelDiscussion.py:40 | after storing `v` under `k`, `k` yields `v` and every other key yields what it yielded before |
| PyDict.Store | modelDiscussion.py:40 | storing under a present key keeps the key order; storing under a new key appends the item |
| PyDict.FromItems | modelDiscussion.py:19-23 | a dict display gives a dict with distinct keys, and its keys are exactly the keys written in the display |
| PyDict.FromDistinctItems | modelDiscussion.py:19-23 | a display whose keys are distinct gives exactly its items, in order |
| PyDict.Values | modelDiscussion.py:37 | `list(d.values())` holds the value of each item, in the dict's order |
| PyDict.Invert | modelDiscussion.py:25 | `{v: k for k, v in d.items()}` is a dict with distinct keys, and its keys are exactly the values of `d` |
| PyDict.StoreKeys | modelDiscussion.py:40 | after a store, the keys are the old keys plus the stored key |
| PyDict.InvertIsInverse | modelDiscussion.py:25 | `{v: k for k, v in d.items()}` of a one-to-one dict swaps keys and values, and `d[k] == v` exactly when the inversion maps `v` to `k` |
| Analysis.Endorses | modelDiscussion.py:127 | a lowered reply endorses a label exactly when "chose " or "prefer " followed by the label, as spelled, occurs at some position of it |
| Analysis.MatchingLabels | modelDiscussion.py:126-128 | a reply adds a label exactly when the label is one of those scanned and the reply endorses it, and it adds no more labels than it scans |
| Analysis.ScanLabels | modelDiscussion.py:126-128 | the inner loop appends, in R1, R2, R3 order, exactly the labels the lowered reply endorses |
| Analysis.Tally | modelDiscussion.py:124-128 | the tally holds at most three entries per reply |
| Analysis.TallyMembers | modelDiscussion.py:124-128 | a label is in `chosen_labels` exactly when it is R1, R2 or R3 and some lowered reply contains "chose " or "prefer " followed by it |
| Analysis.MatchingCount | modelDiscussion.py:126-128 | one reply adds a label exactly once when the label is scanned and endorsed, and otherwise not at all |
| Analysis.EndorsingReplies | modelDiscussion.py:124-128 | the number of replies that endorse a label is at most the number of replies |
| Analysis.TallyCount | modelDiscussion.py:124-128 | `chosen_labels.count(l)` is the number of replies whose lowered text endorses `l` when `l` is R1, R2 or R3, and 0 for any other `l` |
| Analysis.TallyCountBound | modelDiscussion.py:124-128 | no label is counted more often than there are replies |
| Analysis.NeverEndorsed | modelDiscussion.py:127 | no lowered reply contains "chose R1", "prefer R1" or the same for R2 and R3, because the patterns keep their capital R |
| Analysis.TallyAlwaysEmpty | modelDiscussion.py:124-128 | whatever the replies say, `chosen_labels` stays empty |
| Analysis.IntendedTallyCounts | modelDiscussion.py:125-127 | with the label lowered as well, a reply that says "chose" or "prefer" and then a label, in any case, puts that label in the tally |
| Analysis.ExampleIntendedTally | modelDiscussion.py:127 | on the replies "I chose R2 because...", "I prefer R2 here", "R1 is fine", the corrected tally holds R2 and the tally as written is empty |
| Analysis.Extract | modelDiscussion.py:131-136 | a reply contributes a refinement exactly when its lowered text holds one of the markers. When "improvements:" is present, the refinement is the stripped segment that starts right after its first occurrence and runs to the next occurrence or the end; otherwise the same holds for "refinements:". The refinement is lowercase, trimmed, and holds no further copy of the marker it was cut at |
| Analysis.Cut | modelDiscussion.py:132 | `low.split(marker)[1].strip()` of a lowered text is lowercase, trimmed and free of the marker |
| Analysis.Refinements | modelDiscussion.py:130-136 | `all_refinements` has at most one entry per reply |
| Analysis.GatherMembers | modelDiscussion.py:130-136 | a text is collected exactly when some reply yields it |
| Analysis.GatherAppend | modelDiscussion.py:130-136 | collecting over two runs of replies is collecting over each, one after the other |
| Analysis.RefinementsAppend | modelDiscussion.py:130-136 | the refinements of two runs of replies are those of the first run followed by those of the second |
| Analysis.RefinementsOfOne | modelDiscussion.py:130-136 | one reply contributes one entry, its extracted refinement, when it holds a marker, and nothing otherwise |
| Analysis.RefinementsMembers | modelDiscussion.py:130-136 | a text is in `all_refinements` exactly when some reply yields it |
| Analysis.ExampleRefinement | modelDiscussion.py:131-133 | "Note Improvements: add examples" yields the refinement "add examples" |
| Analysis.Count | modelDiscussion.py:139 | `tally.count(l)` is the multiplicity of `l` in the tally, at most the tally's length |
| Analysis.MostFrequent | modelDiscussion.py:139 | `max(set(tally), key=tally.count)` fails on an empty tally; otherwise it returns a tally member counted at least as often as every other |
| Analysis.Unique | modelDiscussion.py:142 | `list(set(items))` has no repeats and the same elements as `items` |
| Analysis.AnalyzeDiscussion | modelDiscussion.py:118-145 | the analysis fails exactly when the tally is empty. Otherwise the label is a most frequent tally entry, and the text joins, with newlines, a repeat-free list holding exactly the extracted refinements |
| Analysis.FacilitateDiscussion | modelDiscussion.py:52-56 | as written, the discussion step always fails with `NoConsensus` |
| Analysis.IntendedFacilitateDiscussion | modelDiscussion.py:118-145 | with the corrected test, the step succeeds exactly when some reply endorses some label, and otherwise fails with `NoConsensus`. The winner is R1, R2 or R3, is a most frequent tally entry, and is endorsed by at least as many replies as any other label. The text joins, with newlines, a repeat-free list holding exactly the extracted refinements |
| Analysis.ExampleWinner | modelDiscussion.py:139 | on the replies "I chose R2 because...", "I prefer R2 here", "R1 is fine", a label among R1, R2 and R3 is endorsed by at least as many replies as R2 exactly when it is R2 |
| Analysis.ExampleIntendedDiscussion | modelDiscussion.py:124-145 | on those replies the corrected step picks R2 and joins an empty list of refinements |
| Discussion.Shuffled | modelDiscussion.py:38 | the shuffled list puts the element at `perm[i]` in position `i` |
| Discussion.ShuffledMultiset | modelDiscussion.py:38 | shuffling three elements keeps each element exactly as often as before |
| Discussion.ShuffledDistinct | modelDiscussion.py:38 | shuffling distinct labels keeps them distinct |
| Discussion.ShuffledLabels | modelDiscussion.py:37-38 | every shuffle of the label list holds exactly R1, R2 and R3 |
| Discussion.FixedMaps | modelDiscussion.py:19-25 | `model_map` is R1→OpenAI, R2→Claude, R3→Gemini; `reverse_map` is its inversion OpenAI→R1, Claude→R2, Gemini→R3 |
| Discussion.ModelDiscussionSystem.constructor | modelDiscussion.py:18-25 | `model_map` is built from its display and `reverse_map` is its inversion |
| Discussion.ModelDiscussionSystem.MapsCoverLabelsAndModels | modelDiscussion.py:19-25 | the keys of `model_map` are exactly the three labels, and the keys of `reverse_map` are exactly the three model names, each once |
| Discussion.ModelDiscussionSystem.MapsAreMutualInverses | modelDiscussion.py:19-25 | `model_map[l] == m` exactly when `reverse_map[m] == l` |
| Discussion.ModelDiscussionSystem.LabelList | modelDiscussion.py:37 | `list(self.reverse_map.values())` is R1, R2, R3 |
| Discussion.ModelDiscussionSystem.InitialResponses | modelDiscussion.py:37-40 | for any shuffle, the returned dict has exactly the keys R1, R2 and R3, answer `i` is stored under the label the shuffle put at position `i`, and the values are the three answers in order |
| Discussion.ModelDiscussionSystem.FinalBackend | modelDiscussion.py:63-70 | R1 goes to OpenAI, R2 to Claude and R3 to Gemini. Each backend is chosen for that label only, and any other label is a `KeyError` for that label |
| Discussion.ModelDiscussionSystem.FinalPrompt | modelDiscussion.py:109-116 | the final prompt holds the template head, the original prompt in the order written, the refinements and the template tail, at known positions |
| Discussion.ModelDiscussionSystem.FinalPromptInjective | modelDiscussion.py:109-116 | two fills whose original prompts have the same length give the same final prompt only when both prompts and both refinements agree |
| Discussion.ModelDiscussionSystem.FinalRequest | modelDiscussion.py:58-70 | `get_final_response` sends the filled template to the backend that `model_map` gives for the label, and fails with `KeyError` for any other label |
| Discussion.ModelDiscussionSystem.DispatchIgnoresShuffle | modelDiscussion.py:63-70 | the final round reaches the model that wrote the chosen answer exactly when the shuffle left that answer's label in place |
| Discussion.ModelDiscussionSystem.SwappedLabelsMisroute | modelDiscussion.py:63-70 | a shuffle that swaps R1 and R2 labels OpenAI's answer R2, and R2 is then sent to Claude |
| Discussion.ModelDiscussionSystem.AuthorMap | modelDiscussion.py:37-40 | the labelling as a map from label to the answer's model is one-to-one, keyed by the shuffled labels in dispatch order |
| Discussion.ModelDiscussionSystem.IntendedFinalBackend | modelDiscussion.py:63-70 | the corrected dispatch fails exactly on labels other than R1, R2 and R3 |
| Discussion.ModelDiscussionSystem.IntendedDispatchReachesAuthor | modelDiscussion.py:63-70 | through the labelling's own map, the final round goes to the model that wrote the chosen answer under every shuffle |

## Findings

| source | as written | input that shows it | evidently intended | confidence | as-written member | corrected member |
|---|---|---|---|---|---|---|
| modelDiscussion.py:127 | the patterns `f"chose {label}"` and `f"prefer {label}"` keep the capital R of the label, but are searched in `response.lower()`; no reply ever matches, the tally stays empty and `max` at line 139 always raises | the discussion replies "I chose R2 because...", "I prefer R2 here", "R1 is fine" (`Analysis.ExampleIntendedTally`) | the label is lowered as well, so "chose r2" in the lowered reply counts for R2 | high (proved; not executed) | Analysis.TallyAlwaysEmpty | Analysis.IntendedFacilitateDiscussion |
| modelDiscussion.py:63 | the final model is looked up in the fixed `model_map`, which ignores the shuffle of lines 37-40, so the chosen answer is generally refined by a model that did not write it | the shuffle `[1, 0, 2]`: OpenAI's answer is labelled R2, and R2 is sent to Claude | the label is mapped back through the labelling the shuffle produced | medium (the program may mean "the model named by the label"; proved; not executed) | Discussion.ModelDiscussionSystem.DispatchIgnoresShuffle | Discussion.ModelDiscussionSystem.IntendedDispatchReachesAuthor |

The main flow keeps the program's behaviour. `FacilitateDiscussion` runs
`AnalyzeDiscussion` with `Endorses`, and `FinalRequest` keeps the fixed map.
The corrected versions sit beside them. `AnalyzeDiscussion` run with `IntendedEndorses` is
`IntendedFacilitateDiscussion`, and `IntendedFinalBackend` uses `AuthorMap`.

## Left out

- The backend calls `_get_openai_response`, `_get_claude_response` and `_get_gemini_response` (lines 72-93): they are network calls, so their replies are inputs.
- The `asyncio.gather` fan-out and all `async`/`await` (lines 29-34, 47-52): each round is modelled as the sequence of its three replies in dispatch order.
- `random.shuffle` (line 38): the shuffle is a permutation parameter, and its randomness is not modelled.
- Client setup, environment loading, `main` and printing (lines 10-15, 147-167): these are configuration and I/O.
- `_create_discussion_prompt` (lines 95-107): it embeds Python's `repr` of a dict, whose quoting and escaping rules are not modelled.
- PyText.Lower: lowers the ASCII letters A-Z only, not the full Unicode `str.lower`.
- PyText.Strip: trims ASCII whitespace only, not all Unicode whitespace.
- Discussion.ModelDiscussionSystem.InitialResponses: requires exactly three replies, which is what `gather` over three tasks returns.
- Analysis.MostFrequent: does not fix which of several tied labels wins, because that depends on the iteration order of a Python `set`.
- Analysis.Unique: does not fix the order of the refinements, for the same reason.
- Analysis.AnalyzeDiscussion: says nothing of the refinement text when the tally is empty, because the program raises before it builds that text.
