# Diagnose-Me core in Dafny

This project models three parts of the Diagnose-Me back end and proves properties about them.

- **The medication service.** It decides:
  - which interaction records concern a new medication, and whether that medication is compatible with the patient's current ones;
  - which recommendation text the check produces;
  - which medications of a category are safe alternatives;
  - which over-the-counter (OTC) medications to recommend for a list of symptoms, split into safe ones and ones with warnings;
  - whether a prescription may be written.
- **The pure text helpers of the chatbot service.** These are symptom normalisation, the medication-name and age validators, and the removal of a Markdown code fence around a language-model reply.
- **The depth-bounded neighbour search over a graph** (`get_node_neighbors`).

The project has three modules:

- `MedicationService` (`medication_service.dfy`) uses functions for the pure decisions. `get_safe_alternatives` and `recommend_otc_medications` are loops in the source, so they are methods with loop invariants. Each method is proved equal to, or to partition, a specification function.
- `ChatbotService` (`chatbot_service.dfy`) is all functions and lemmas, as the source is.
- `GraphUtils` (`graph_utils.dfy`) has `GetNodeNeighbors`, a method with the source's two nested loops. It is proved equal to `NeighborsWithin`, a level-by-level definition. That definition is then characterised by walks in the graph.

The drug-interaction checker (`check_interactions`) is a parameter of type `seq<string> -> seq<Interaction>`. Every property holds for every checker. Database reads also become parameters:

- the names of the patient's current medications;
- the names of the medications in a category;
- the id found when a medication is looked up by name.

The clock reading stored in a prescription is a parameter as well.

## Model

| member | source | states |
|---|---|---|
| MedicationService.Filter | app/services/medication_service.py:43-45 | A list-comprehension filter keeps only elements that pass the test and is never longer than its input |
| MedicationService.FilterSnoc | app/services/medication_service.py:43-45 | Filtering a list with one more element appends that element exactly when it passes |
| MedicationService.FilterMultiset | app/services/medication_service.py:43-45 | A kept element appears as often as in the input; a rejected one never appears |
| MedicationService.FilterEmpty | app/services/medication_service.py:43-45 | The filter is empty iff no element passes |
| MedicationService.FilterSubsequence | app/services/medication_service.py:43-45 | The filter keeps the input order (the result is a subsequence) |
| MedicationService.Involves | app/services/medication_service.py:44 | A record concerns a medication iff the name equals its drug1 or its drug2 |
| MedicationService.RelevantInteractions | app/services/medication_service.py:42-45 | Every record kept names the new medication in drug1 or drug2. Every such record is kept with its multiplicity and in order. The list is empty iff no record names it |
| MedicationService.HasSeverity | app/services/medication_service.py:68-71 | Some record has the given severity: the truth test on the major or moderate comprehension |
| MedicationService.NoInteractionsText | app/services/medication_service.py:66 | The reassuring recommendation text, character for character |
| MedicationService.MajorText | app/services/medication_service.py:72-74 | The major-interaction text, with its warning sign U+26A0 U+FE0F |
| MedicationService.ModerateText | app/services/medication_service.py:76 | The moderate-interaction text, with its warning sign |
| MedicationService.MinorText | app/services/medication_service.py:78 | The minor-interaction text |
| MedicationService.CompatibilityRecommendation | app/services/medication_service.py:60-78 | Priority order: the safe text when safe, else the major text if any record is major, else the moderate text if any is moderate, else the minor text |
| MedicationService.RecommendationTextsDistinct | app/services/medication_service.py:66-78 | The four recommendation texts are pairwise different |
| MedicationService.RecommendationSafeIff | app/services/medication_service.py:65-78 | The "no known interactions" text is produced iff the check is safe |
| MedicationService.CheckMedicationCompatibility | app/services/medication_service.py:26-58 | is_compatible holds iff no record returned for current + [new] names the new medication. interactions is the relevant list, interactions_found its length, and the recommendation is computed from them |
| MedicationService.ExistingConflictsNotReported | app/services/medication_service.py:42-45 | A record between two current medications is not reported |
| MedicationService.RelevantConflictsReported | app/services/medication_service.py:42-52 | A record naming the new medication is reported as often as the checker returned it, and makes the medication incompatible with a positive count |
| MedicationService.CompatibilityMatchesRecommendation | app/services/medication_service.py:47-57 | The report is compatible iff its recommendation is the reassuring text |
| MedicationService.AspirinWithWarfarin | app/services/medication_service.py:26-78 | Warfarin plus Aspirin with one major record: incompatible, one interaction, major text |
| MedicationService.SafeAlternatives | app/services/medication_service.py:99-109 | The list of safe alternatives is no longer than the category list |
| MedicationService.IsSafeAlternative | app/services/medication_service.py:102-106 | A category medication is kept iff the patient does not take it and the checker returns no record for current + [name] |
| MedicationService.SafeAlternativesSnoc | app/services/medication_service.py:101-107 | One more category medication is appended exactly when it is not current and the checker finds nothing |
| MedicationService.SafeAlternativesCharacterized | app/services/medication_service.py:99-109 | A name is returned iff it is in the category, not a current medication, and the checker returns no record for current + [name]. Category order is kept |
| MedicationService.GetSafeAlternatives | app/services/medication_service.py:80-109 | The loop returns SafeAlternatives: membership iff (in category, not current, no interactions), in category order, with length at most the category's |
| MedicationService.SymptomMedicationMap | app/services/medication_service.py:117-126 | The fixed table: the eight symptoms and their medications, in the source's order |
| MedicationService.TableEntries | app/services/medication_service.py:131-132 | The medications the table gives for a symptom; none when the symptom is not a key |
| MedicationService.OtcCandidatesAppend | app/services/medication_service.py:129-132 | One more symptom adds exactly its table entries to the candidate set |
| MedicationService.OtcCandidates | app/services/medication_service.py:129-132 | The set `recommended`: every medication the table gives for some listed symptom |
| MedicationService.OtcUnknownSymptomIgnored | app/services/medication_service.py:130-131 | A symptom missing from the table adds nothing |
| MedicationService.OtcRepeatedSymptomIgnored | app/services/medication_service.py:129-132 | Repeating a symptom adds nothing |
| MedicationService.OtcPair | app/services/medication_service.py:129-132 | Two symptoms give the union of their table entries |
| MedicationService.PainRelieversFor | app/services/medication_service.py:117-119 | The table gives headache and fever the two pain relievers |
| MedicationService.OtcHeadacheAndFever | app/services/medication_service.py:117-132 | Headache and fever together give exactly Acetaminophen and Ibuprofen, two candidates |
| MedicationService.AppendSafeEntry | app/services/medication_service.py:143-146 | Appending a well-formed safe entry keeps every safe entry well-formed |
| MedicationService.AppendWarningEntry | app/services/medication_service.py:147-154 | Appending a well-formed warning entry keeps every warning entry well-formed |
| MedicationService.IsSafeEntry | app/services/medication_service.py:143-146 | A safe entry: status "safe", no interactions, and the compatibility check passes for its medication |
| MedicationService.IsWarningEntry | app/services/medication_service.py:147-154 | A warning entry: status "warning", the check fails for its medication, and the entry carries that check's interactions |
| MedicationService.PartitionedAddSafe | app/services/medication_service.py:138-146 | Moving one unchecked candidate to the safe list keeps safe, warnings and unchecked a partition of the candidates |
| MedicationService.PartitionedAddWarning | app/services/medication_service.py:138-154 | The same for the warning list |
| MedicationService.PartitionedComplete | app/services/medication_service.py:156-161 | Once every candidate is checked, the two list lengths add up to the number of candidates |
| MedicationService.AppendEntry | app/services/medication_service.py:138-154 | A new medication extends a list of distinct entries by one |
| MedicationService.CollectOtcCandidates | app/services/medication_service.py:128-132 | The first loop builds exactly the union of the table entries of the listed symptoms |
| MedicationService.SortByCompatibility | app/services/medication_service.py:134-154 | The second loop partitions the candidates. Safe entries carry "safe", no interactions and a compatible check. Warning entries carry "warning", an incompatible check and its interactions. No medication is repeated, and the lengths add up |
| MedicationService.RecommendOtcMedications | app/services/medication_service.py:111-162 | symptoms is echoed. Safe and warning medications partition the table's candidates for the symptoms, and every entry is well-formed. total_checked is the number of candidates, safe_count the safe list's length, and safe_count plus warnings equals total_checked |
| MedicationService.PrescribeMedication | app/services/medication_service.py:164-210 | The result is None iff some record for current + [name] names the medication with major severity, or the lookup fails. Otherwise it is the prescription with the given fields, the clock reading and active = 1. Minor and moderate interactions do not block |
| MedicationService.HasMajorConflict | app/services/medication_service.py:180-185 | Some record returned for current + [name] names the medication and has severity "major" |
| MedicationService.MajorRefusal | app/services/medication_service.py:180-185 | A major record among the relevant ones is a major conflict of the medication |
| MedicationService.NoMajorConflict | app/services/medication_service.py:180-185 | No major record among the relevant ones means no major conflict |
| MedicationService.PrescribeRefusedIffMajorText | app/services/medication_service.py:176-185 | For a medication on file, prescribing is refused iff the compatibility recommendation is the major text |
| ChatbotService.ToLower | app/services/chatbot_service.py:203 | An upper-case letter maps to its lower-case letter; every other character is kept |
| ChatbotService.IsSpace | app/services/chatbot_service.py:43 | Python's whitespace on ASCII (`str.strip`, `\s`): space, tab, LF, VT, FF, CR and 0x1C-0x1F |
| ChatbotService.IsWordChar | app/services/chatbot_service.py:46 | The regex class `\w` on ASCII: letters, digits and `_` |
| ChatbotService.IsSymptomChar | app/services/chatbot_service.py:205 | The class `[a-z0-9_]` of characters that survive normalisation |
| ChatbotService.IsMedicationChar | app/services/chatbot_service.py:194 | The class `[a-zA-Z0-9\s\-\(\)\.]`, on ASCII |
| ChatbotService.LowerAll | app/services/chatbot_service.py:203 | Lower-casing keeps the length and maps each character |
| ChatbotService.LeadingSpaces | app/services/chatbot_service.py:43 | The length of the leading whitespace run: all of it is space and the next character is not |
| ChatbotService.TrailingStart | app/services/chatbot_service.py:43 | Where the trailing whitespace run begins |
| ChatbotService.Strip | app/services/chatbot_service.py:43 | `str.strip`: the result starts and ends with non-space and is no longer than the input |
| ChatbotService.StripSplits | app/services/chatbot_service.py:43 | The input is whitespace + Strip(input) + whitespace |
| ChatbotService.StripPadded | app/services/chatbot_service.py:43 | Stripping whitespace + trimmed text + whitespace gives the text back |
| ChatbotService.StripTrimmed | app/services/chatbot_service.py:43 | Strip leaves trimmed text unchanged |
| ChatbotService.StripIgnoresPadding | app/services/chatbot_service.py:43 | Adding whitespace around a string does not change what Strip returns |
| ChatbotService.SquashSpaces | app/services/chatbot_service.py:204 | `re.sub(r"\s+", "_", s)` leaves no whitespace and never lengthens |
| ChatbotService.SquashFrom | app/services/chatbot_service.py:204 | The left-to-right scan behind `re.sub(r"\s+", "_", s)`: the first character of each whitespace run gives `_`, the rest of the run nothing; never lengthens |
| ChatbotService.SquashFromAppend | app/services/chatbot_service.py:204 | The whitespace replacement over a concatenation is the replacement of each part, with the run state carried over |
| ChatbotService.SquashFromNoSpace | app/services/chatbot_service.py:204 | Text without whitespace is unchanged |
| ChatbotService.SquashFromRun | app/services/chatbot_service.py:204 | A whitespace run becomes one `_`, or nothing if it continues a run |
| ChatbotService.SquashSpacesRun | app/services/chatbot_service.py:204 | A whitespace run between two non-space characters becomes exactly one `_` |
| ChatbotService.KeepSymptomChars | app/services/chatbot_service.py:205 | `re.sub(r"[^a-z0-9_]", "", s)` leaves only `[a-z0-9_]` and never lengthens |
| ChatbotService.KeepSymptomCharsFixes | app/services/chatbot_service.py:205 | Text already in `[a-z0-9_]` is unchanged |
| ChatbotService.KeepSymptomCharsAppend | app/services/chatbot_service.py:205 | The removal works character by character: it splits over a concatenation |
| ChatbotService.KeepSymptomCharsOne | app/services/chatbot_service.py:205 | One character is kept iff it is in `[a-z0-9_]`. With KeepSymptomCharsAppend this fixes the result: every allowed character is kept, in order |
| ChatbotService.NormalizeSymptom | app/services/chatbot_service.py:198-206 | Empty input gives empty output; every output character is in `[a-z0-9_]` |
| ChatbotService.NormalizeFixesCanonical | app/services/chatbot_service.py:198-206 | A string already in `[a-z0-9_]` normalises to itself |
| ChatbotService.NormalizeIdempotent | app/services/chatbot_service.py:198-206 | Normalising twice equals normalising once |
| ChatbotService.NormalizeIgnoresPadding | app/services/chatbot_service.py:198-206 | Surrounding whitespace does not change the normal form |
| ChatbotService.NormalizeRunnyNose | app/services/chatbot_service.py:198-206 | "Runny  Nose" normalises to "runny_nose", the key the OTC table uses |
| ChatbotService.NormalizeRunnyBangNose | app/services/chatbot_service.py:198-206 | "Runny!Nose" normalises to "runnynose": punctuation is dropped and the letters around it are kept |
| ChatbotService.AllMedicationChars | app/services/chatbot_service.py:194-195 | True iff every character is in `[a-zA-Z0-9\s\-\(\)\.]` |
| ChatbotService.ValidateMedication | app/services/chatbot_service.py:186-195 | True iff the name is non-empty and every character is allowed |
| ChatbotService.ValidateAge | app/services/chatbot_service.py:209-211 | True iff 0 <= age <= 120 |
| ChatbotService.LeadingWordChars | app/services/chatbot_service.py:46 | The length of the leading `\w` run |
| ChatbotService.TagEnd | app/services/chatbot_service.py:46 | After the opening fence, the `\w*` tag ends at the first non-word character |
| ChatbotService.OpeningFenceEnd | app/services/chatbot_service.py:46 | `^```\w*\s*` ends after the tag and the whitespace that follows it, at a non-space or at the end |
| ChatbotService.ClosingFenceStart | app/services/chatbot_service.py:48 | `\s*```$` starts at the beginning of the whitespace run before the final fence |
| ChatbotService.DropClosingFence | app/services/chatbot_service.py:48 | The result is a prefix of the input. Text without a closing fence is unchanged; otherwise the cut is at ClosingFenceStart |
| ChatbotService.Unfence | app/services/chatbot_service.py:44-48 | For a stripped reply that starts with a fence, the result is the text after the opening fence and its whitespace, cut by DropClosingFence. It is a slice starting right there, and it is trimmed |
| ChatbotService.UnfenceTrimmed | app/services/chatbot_service.py:44-48 | The two cuts leave no whitespace at either end |
| ChatbotService.CleanJsonString | app/services/chatbot_service.py:41-49 | An unfenced reply gives Strip(reply). For a fenced reply, the stripped text is cut after the opening fence, tag and whitespace, and then before any closing whitespace-and-fence (DropClosingFence); the result is a slice of it. The result is always trimmed |
| ChatbotService.CleanJsonShortens | app/services/chatbot_service.py:44-48 | A fenced reply loses at least the three backticks of its opening fence |
| ChatbotService.CleanJsonUnwrapsFence | app/services/chatbot_service.py:41-49 | "```tag", whitespace, a trimmed body, whitespace, "```" cleans to the body. This needs the tag not to run into the body |
| ChatbotService.CleanJsonOfWrapped | app/services/chatbot_service.py:44-48 | A reply of fence, tag, whitespace and u cleans to u without its closing fence |
| ChatbotService.CleanJsonOfFenced | app/services/chatbot_service.py:43-48 | A fenced reply that ends in a non-space is cut after the opening fence, then by DropClosingFence |
| ChatbotService.OpeningOfWrapped | app/services/chatbot_service.py:46 | The opening substitution on fence + tag + whitespace + u stops exactly at u |
| ChatbotService.ClosingOfWrapped | app/services/chatbot_service.py:48 | The closing substitution on body + whitespace + fence gives the body |
| ChatbotService.CleanJsonBareFence | app/services/chatbot_service.py:41-49 | A reply that is only "```" cleans to the empty string |
| ChatbotService.CleanJsonIgnoresPadding | app/services/chatbot_service.py:43 | Whitespace around a reply does not change its cleaned form |
| ChatbotService.CleanJsonPaddedReply | app/services/chatbot_service.py:41-49 | Outer whitespace + "```tag" + whitespace + trimmed body + whitespace + "```" + outer whitespace cleans to the body |
| ChatbotService.CleanJsonUnclosedFence | app/services/chatbot_service.py:44-48 | With an opening fence and no closing one, only the fence, its tag and the whitespace after them are removed |
| ChatbotService.CleanJsonUnclosedExample | app/services/chatbot_service.py:41-49 | "```json {1}" cleans to "{1}" |
| ChatbotService.CleanJsonNewlineExample | app/services/chatbot_service.py:41-49 | "```json\n{}\n```\n" cleans to "{}" |
| ChatbotService.StartsWithFence | app/services/chatbot_service.py:44 | `startswith("```")`: at least three characters, the first three backticks |
| ChatbotService.EndsWithFence | app/services/chatbot_service.py:48 | The reply ends with "```", where the `\s*```$` match can start |
| GraphUtils.StepAddOne | app/utils/graph_utils.py:33-35 | Expanding one more node of the level adds exactly its neighbours to the next level |
| GraphUtils.ExpandOne | app/utils/graph_utils.py:34-35 | One inner-loop iteration turns the next level of the processed nodes into that of one more node |
| GraphUtils.GetNodeNeighbors | app/utils/graph_utils.py:25-40 | The two loops compute NeighborsWithin: nothing for a missing node or a non-positive depth, otherwise the union of levels 1..depth without the start node |
| GraphUtils.NeighborsWithin | app/utils/graph_utils.py:25-40 | What `get_node_neighbors` returns: nothing for a missing node or a non-positive depth, otherwise levels 1..depth without the start node |
| GraphUtils.Adj | app/utils/graph_utils.py:35 | `graph.neighbors(n)`: the adjacency set of a node, empty for a name that is not a node |
| GraphUtils.Step | app/utils/graph_utils.py:33-35 | The next level: every neighbour of some node of the current level |
| GraphUtils.Level | app/utils/graph_utils.py:31-37 | `current_level` after k rounds: the start node, then k applications of Step |
| GraphUtils.UpTo | app/utils/graph_utils.py:32-37 | `neighbors` after k rounds: the union of levels 1..k |
| GraphUtils.MissingNodeHasNoNeighbors | app/utils/graph_utils.py:28-29 | A node not in the graph gets the empty set |
| GraphUtils.NonPositiveDepthIsEmpty | app/utils/graph_utils.py:32 | A depth of zero or less gives the empty set |
| GraphUtils.StartNeverIncluded | app/utils/graph_utils.py:39 | The start node is never returned, even on a cycle or a self-loop |
| GraphUtils.DepthOneIsAdjacency | app/utils/graph_utils.py:25-40 | At depth 1 the result is the start node's neighbours minus the start node |
| GraphUtils.UpToMonotone | app/utils/graph_utils.py:32-37 | More rounds never lose a collected node |
| GraphUtils.NeighborsMonotone | app/utils/graph_utils.py:25-40 | A larger depth gives a superset |
| GraphUtils.LevelHasWalk | app/utils/graph_utils.py:31-37 | Every node of level k ends a walk of k steps from the start |
| GraphUtils.WalkEndsInLevel | app/utils/graph_utils.py:31-37 | The end of a walk of k steps from the start is in level k |
| GraphUtils.WalkOfOneStepStartsInGraph | app/utils/graph_utils.py:28-35 | A walk of one step or more starts at a node of the graph |
| GraphUtils.UpToLevels | app/utils/graph_utils.py:36 | A node is collected after k rounds iff it is in some level 1..k |
| GraphUtils.NeighborsAreWalkEnds | app/utils/graph_utils.py:25-40 | For any start node, a node is returned iff it is not the start and some walk of 1..depth steps leads to it from the start |

## Left out

- Database access: the patient's prescriptions, the category query and the lookup by name (medication_service.py:32-36, 86-97, 188-193) are parameters. Writing the prescription (`db.add`, `commit`, `refresh`) is not modelled; `PrescribeMedication` returns the row that would be written.
- `check_interactions` of the drug-interaction graph is not part of this model. It is an arbitrary function from a medication list to interaction records, and every result holds for all such functions.
- `datetime.utcnow()` is the parameter `now`.
- `recommend_otc_medications` iterates over a Python `set`, whose order is unspecified. The model picks an arbitrary remaining candidate on each round. The contracts therefore say which medications land in each list, not the order of the lists.
- `check_medication_compatibility` is called once per OTC candidate against the same current medications. The model passes the same current-medication list to each call, because the loop does not change the database.
- get_safe_alternatives and prescribe_medication call the interaction checker on current + [name]. A record between two current medications therefore makes a category medication unsafe in `SafeAlternatives`, because the source checks `not interactions`, not the relevant records. The model keeps this. In `PrescribeMedication`, only major records that name the new medication refuse, as in the source.
- Characters: `str.lower`, `str.strip`, `\s` and `\w` follow Python's Unicode tables. The model uses their ASCII part: upper-case A-Z only, and ASCII whitespace including 0x1C-0x1F. A non-ASCII character that Python would lower-case into `[a-z]` is dropped by the model.
- ChatbotService.NormalizeSymptom: its own contract states only the output alphabet and the empty case. The lemmas next to it state idempotence, fixed points, insensitivity to outer whitespace and two worked examples. The steps are characterised separately: the whitespace squash (SquashFromAppend, SquashFromRun, SquashFromNoSpace) and the filter (KeepSymptomCharsAppend, KeepSymptomCharsOne). No single lemma states the whole pipeline for arbitrary input.
- The language-model and network parts of the chatbot service (`process_message`, prompt building, follow-up questions), `validate_confidence_score` (floating point), and the image and CNN services are not part of this model.
- Graph: a graph is an adjacency map, and its nodes are the keys. A neighbour that is not a key has no neighbours of its own; in networkx every neighbour is a node. The other networkx wrappers in graph_utils.py are not part of this model.
