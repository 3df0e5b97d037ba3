/**
 * The decision logic of the medication service: which interaction records concern
 * a new medication, the recommendation text they lead to, the safe alternatives in
 * a category, the over-the-counter recommendations for a list of symptoms, and the
 * refusal to prescribe on a major interaction.
 *
 * The interaction checker of the drug-interaction graph is a parameter: every
 * property below holds for every checker. The database reads become parameters too:
 * the names of the patient's current medications, the names in a category, and the
 * result of looking a medication up by name.
 */
module MedicationService {

  datatype Option<T> = None | Some(value: T)

  /** One record returned by the interaction checker. */
  datatype Interaction = Interaction(drug1: string, drug2: string, severity: string)

  /** `DrugInteractionGraph.check_interactions`: the records found among a list of names. */
  type InteractionChecker = seq<string> -> seq<Interaction>

  const Major: string := "major"
  const Moderate: string := "moderate"

  const NoInteractionsText: string := "No known interactions detected. Medication appears compatible."
  const MajorText: string := "\U{26A0}\U{FE0F} MAJOR INTERACTIONS DETECTED. Do not prescribe without consultation."
  const ModerateText: string := "\U{26A0}\U{FE0F} Moderate interactions found. Monitor patient closely and consider alternatives."
  const MinorText: string := "Minor interactions present. Adjust dosage or timing as needed."

  // ---------------------------------------------------------------------------
  // Filtering a list, as the list comprehensions of the service do
  // ---------------------------------------------------------------------------

  /** `a` is `b` with some elements dropped, the rest kept in order. */
  ghost predicate IsSubsequence<T>(a: seq<T>, b: seq<T>)
    decreases |b|
  {
    if a == [] then true
    else if b == [] then false
    else if a[|a| - 1] == b[|b| - 1] then IsSubsequence(a[..|a| - 1], b[..|b| - 1])
    else IsSubsequence(a, b[..|b| - 1])
  }

  /** `[x for x in xs if keep(x)]`. */
  function Filter<T>(xs: seq<T>, keep: T -> bool): (r: seq<T>)
    ensures |r| <= |xs|
    ensures forall i | 0 <= i < |r| :: keep(r[i])
    decreases |xs|
  {
    if xs == [] then []
    else
      var p := Filter(xs[..|xs| - 1], keep);
      if keep(xs[|xs| - 1]) then p + [xs[|xs| - 1]] else p
  }

  /** Filtering a longer list: the new element is kept or dropped, the rest is as before. */
  lemma FilterSnoc<T>(xs: seq<T>, x: T, keep: T -> bool)
    ensures Filter(xs + [x], keep) == Filter(xs, keep) + (if keep(x) then [x] else [])
  {
    assert (xs + [x])[..|xs|] == xs;
  }

  /** The filter keeps every accepted element as often as it occurs, and nothing else. */
  lemma {:induction false} FilterMultiset<T(!new)>(xs: seq<T>, keep: T -> bool)
    ensures forall x :: multiset(Filter(xs, keep))[x] == if keep(x) then multiset(xs)[x] else 0
    decreases |xs|
  {
    if xs != [] {
      var init, last := xs[..|xs| - 1], xs[|xs| - 1];
      assert xs == init + [last];
      FilterSnoc(init, last, keep);
      FilterMultiset(init, keep);
    }
  }

  /** The filter drops everything exactly when it accepts nothing. */
  lemma {:induction false} FilterEmpty<T>(xs: seq<T>, keep: T -> bool)
    ensures Filter(xs, keep) == [] <==> forall i | 0 <= i < |xs| :: !keep(xs[i])
    decreases |xs|
  {
    if xs != [] {
      var init, last := xs[..|xs| - 1], xs[|xs| - 1];
      assert xs == init + [last];
      FilterSnoc(init, last, keep);
      FilterEmpty(init, keep);
      assert forall i | 0 <= i < |init| :: init[i] == xs[i];
    }
  }

  /** The filter keeps the order of the input. */
  lemma {:induction false} FilterSubsequence<T>(xs: seq<T>, keep: T -> bool)
    ensures IsSubsequence(Filter(xs, keep), xs)
    decreases |xs|
  {
    if xs != [] {
      var init, last := xs[..|xs| - 1], xs[|xs| - 1];
      var p := Filter(init, keep);
      assert xs == init + [last];
      FilterSnoc(init, last, keep);
      FilterSubsequence(init, keep);
      if keep(last) {
        assert (p + [last])[..|p|] == p;
      } else if p != [] {
        assert keep(p[|p| - 1]);
      }
    }
  }

  // ---------------------------------------------------------------------------
  // check_medication_compatibility and _generate_compatibility_recommendation
  // ---------------------------------------------------------------------------

  /** A record names the medication as one of its two drugs. */
  predicate Involves(i: Interaction, name: string) {
    i.drug1 == name || i.drug2 == name
  }

  /** The records that name the new medication, in the checker's order. */
  function RelevantInteractions(records: seq<Interaction>, name: string): (r: seq<Interaction>)
    ensures forall i | 0 <= i < |r| :: Involves(r[i], name)
    ensures forall x :: multiset(r)[x] == if Involves(x, name) then multiset(records)[x] else 0
    ensures r == [] <==> forall i | 0 <= i < |records| :: !Involves(records[i], name)
    ensures IsSubsequence(r, records)
  {
    var keep := (i: Interaction) => Involves(i, name);
    FilterMultiset(records, keep);
    FilterEmpty(records, keep);
    FilterSubsequence(records, keep);
    Filter(records, keep)
  }

  /** Some record has the given severity. */
  predicate HasSeverity(records: seq<Interaction>, severity: string) {
    exists i | 0 <= i < |records| :: records[i].severity == severity
  }

  /** `_generate_compatibility_recommendation`. */
  function CompatibilityRecommendation(isSafe: bool, interactions: seq<Interaction>): (r: string)
    ensures isSafe ==> r == NoInteractionsText
    ensures !isSafe && HasSeverity(interactions, Major) ==> r == MajorText
    ensures !isSafe && !HasSeverity(interactions, Major) && HasSeverity(interactions, Moderate) ==> r == ModerateText
    ensures !isSafe && !HasSeverity(interactions, Major) && !HasSeverity(interactions, Moderate) ==> r == MinorText
  {
    if isSafe then NoInteractionsText
    else
      var isMajor := (i: Interaction) => i.severity == Major;
      var isModerate := (i: Interaction) => i.severity == Moderate;
      FilterEmpty(interactions, isMajor);
      FilterEmpty(interactions, isModerate);
      var majorInteractions := Filter(interactions, isMajor);
      var moderateInteractions := Filter(interactions, isModerate);
      if majorInteractions != [] then MajorText
      else if moderateInteractions != [] then ModerateText
      else MinorText
  }

  /** The four recommendation texts are pairwise different. */
  lemma RecommendationTextsDistinct()
    ensures NoInteractionsText != MajorText && NoInteractionsText != ModerateText && NoInteractionsText != MinorText
    ensures MajorText != ModerateText && MajorText != MinorText && ModerateText != MinorText
  {
  }

  /** The reassuring text appears exactly when the check found nothing. */
  lemma RecommendationSafeIff(isSafe: bool, interactions: seq<Interaction>)
    ensures CompatibilityRecommendation(isSafe, interactions) == NoInteractionsText <==> isSafe
  {
    RecommendationTextsDistinct();
  }

  /** The result of `check_medication_compatibility`. */
  datatype CompatibilityReport = CompatibilityReport(
    newMedication: string,
    isCompatible: bool,
    interactionsFound: int,
    interactions: seq<Interaction>,
    currentMedications: seq<string>,
    recommendation: string)

  /** `check_medication_compatibility`, given the names of the current medications. */
  function CheckMedicationCompatibility(check: InteractionChecker, currentMeds: seq<string>, newMedication: string)
    : (r: CompatibilityReport)
    ensures r.newMedication == newMedication && r.currentMedications == currentMeds
    ensures r.isCompatible <==>
      forall i | 0 <= i < |check(currentMeds + [newMedication])| :: !Involves(check(currentMeds + [newMedication])[i], newMedication)
    ensures r.interactions == RelevantInteractions(check(currentMeds + [newMedication]), newMedication)
    ensures r.interactionsFound == |r.interactions|
    ensures r.recommendation == CompatibilityRecommendation(r.isCompatible, r.interactions)
  {
    var allMeds := currentMeds + [newMedication];
    var interactions := check(allMeds);
    var relevant := RelevantInteractions(interactions, newMedication);
    var isSafe := |relevant| == 0;
    CompatibilityReport(newMedication, isSafe, |relevant|, relevant, currentMeds,
      CompatibilityRecommendation(isSafe, relevant))
  }

  /**
   * A conflict between two medications the patient already takes is not reported
   * and does not make the new medication incompatible.
   */
  lemma {:induction false} ExistingConflictsNotReported(check: InteractionChecker, currentMeds: seq<string>,
                                                        newMedication: string, conflict: Interaction)
    requires conflict in check(currentMeds + [newMedication])
    requires conflict.drug1 != newMedication && conflict.drug2 != newMedication
    ensures conflict !in CheckMedicationCompatibility(check, currentMeds, newMedication).interactions
  {
    var r := CheckMedicationCompatibility(check, currentMeds, newMedication);
    assert multiset(r.interactions)[conflict] == 0;
  }

  /** Every record naming the new medication is reported, as often as the checker returned it. */
  lemma {:induction false} RelevantConflictsReported(check: InteractionChecker, currentMeds: seq<string>,
                                                     newMedication: string, conflict: Interaction)
    requires conflict in check(currentMeds + [newMedication])
    requires Involves(conflict, newMedication)
    ensures var r := CheckMedicationCompatibility(check, currentMeds, newMedication);
      conflict in r.interactions && !r.isCompatible && r.interactionsFound > 0
      && multiset(r.interactions)[conflict] == multiset(check(currentMeds + [newMedication]))[conflict]
  {
    var records := check(currentMeds + [newMedication]);
    var r := CheckMedicationCompatibility(check, currentMeds, newMedication);
    assert multiset(records)[conflict] > 0;
    assert multiset(r.interactions)[conflict] > 0;
  }

  /** The check refuses exactly when the recommendation is not the reassuring text. */
  lemma CompatibilityMatchesRecommendation(check: InteractionChecker, currentMeds: seq<string>, newMedication: string)
    ensures var r := CheckMedicationCompatibility(check, currentMeds, newMedication);
      r.isCompatible <==> r.recommendation == NoInteractionsText
  {
    var r := CheckMedicationCompatibility(check, currentMeds, newMedication);
    RecommendationSafeIff(r.isCompatible, r.interactions);
  }

  /** Adding Aspirin for a patient on Warfarin, with a checker that reports their major interaction. */
  lemma AspirinWithWarfarin(check: InteractionChecker, currentMeds: seq<string>, newMedication: string)
    requires currentMeds == ["Warfarin"] && newMedication == "Aspirin"
    requires check(currentMeds + [newMedication]) == [Interaction("Warfarin", "Aspirin", Major)]
    ensures var r := CheckMedicationCompatibility(check, currentMeds, newMedication);
      !r.isCompatible && r.interactionsFound == 1 && r.recommendation == MajorText
  {
    var records := check(currentMeds + [newMedication]);
    assert Involves(records[0], newMedication);
    var r := CheckMedicationCompatibility(check, currentMeds, newMedication);
    FilterSnoc([], records[0], (i: Interaction) => Involves(i, newMedication));
    assert records == [] + [records[0]];
    assert r.interactions == records;
    assert r.interactions[0].severity == Major;
  }

  // ---------------------------------------------------------------------------
  // get_safe_alternatives
  // ---------------------------------------------------------------------------

  /** A category medication the patient does not take and that the checker finds nothing against. */
  predicate IsSafeAlternative(check: InteractionChecker, currentMeds: seq<string>, name: string) {
    name !in currentMeds && check(currentMeds + [name]) == []
  }

  /** The safe alternatives, in category order: the list `get_safe_alternatives` builds. */
  function SafeAlternatives(check: InteractionChecker, currentMeds: seq<string>, categoryMeds: seq<string>)
    : (r: seq<string>)
    ensures |r| <= |categoryMeds|
  {
    Filter(categoryMeds, name => IsSafeAlternative(check, currentMeds, name))
  }

  lemma SafeAlternativesSnoc(check: InteractionChecker, currentMeds: seq<string>, categoryMeds: seq<string>, name: string)
    ensures SafeAlternatives(check, currentMeds, categoryMeds + [name])
      == SafeAlternatives(check, currentMeds, categoryMeds) + (if IsSafeAlternative(check, currentMeds, name) then [name] else [])
  {
    FilterSnoc(categoryMeds, name, name => IsSafeAlternative(check, currentMeds, name));
  }

  /**
   * Every alternative is a category medication that is safe; every safe category
   * medication is an alternative; the category order is kept.
   */
  lemma SafeAlternativesCharacterized(check: InteractionChecker, currentMeds: seq<string>, categoryMeds: seq<string>)
    ensures var r := SafeAlternatives(check, currentMeds, categoryMeds);
      (forall name :: name in r <==> name in categoryMeds && IsSafeAlternative(check, currentMeds, name))
      && IsSubsequence(r, categoryMeds)
  {
    var keep := name => IsSafeAlternative(check, currentMeds, name);
    var r := Filter(categoryMeds, keep);
    FilterMultiset(categoryMeds, keep);
    FilterSubsequence(categoryMeds, keep);
    forall name ensures name in r <==> name in categoryMeds && IsSafeAlternative(check, currentMeds, name) {
      assert name in r <==> multiset(r)[name] > 0;
      assert name in categoryMeds <==> multiset(categoryMeds)[name] > 0;
    }
  }

  /** `get_safe_alternatives`, given the current medication names and the category's names. */
  method GetSafeAlternatives(check: InteractionChecker, currentMeds: seq<string>, categoryMeds: seq<string>)
    returns (safeAlternatives: seq<string>)
    ensures safeAlternatives == SafeAlternatives(check, currentMeds, categoryMeds)
    ensures forall name :: name in safeAlternatives <==>
      name in categoryMeds && name !in currentMeds && check(currentMeds + [name]) == []
    ensures IsSubsequence(safeAlternatives, categoryMeds) && |safeAlternatives| <= |categoryMeds|
  {
    safeAlternatives := [];
    for k := 0 to |categoryMeds|
      invariant safeAlternatives == SafeAlternatives(check, currentMeds, categoryMeds[..k])
    {
      var med := categoryMeds[k];
      SafeAlternativesSnoc(check, currentMeds, categoryMeds[..k], med);
      assert categoryMeds[..k + 1] == categoryMeds[..k] + [med];
      if med !in currentMeds {
        var interactions := check(currentMeds + [med]);
        if interactions == [] {
          safeAlternatives := safeAlternatives + [med];
        }
      }
    }
    assert categoryMeds[..|categoryMeds|] == categoryMeds;
    SafeAlternativesCharacterized(check, currentMeds, categoryMeds);
  }

  // ---------------------------------------------------------------------------
  // recommend_otc_medications
  // ---------------------------------------------------------------------------

  /** The fixed symptom-to-medication table. */
  const SymptomMedicationMap: map<string, seq<string>> := map[
    "headache" := ["Acetaminophen", "Ibuprofen"],
    "fever" := ["Acetaminophen", "Ibuprofen"],
    "cough" := ["Dextromethorphan"],
    "runny_nose" := ["Pseudoephedrine"],
    "sore_throat" := ["Acetaminophen", "Ibuprofen"],
    "nausea" := ["Bismuth subsalicylate"],
    "diarrhea" := ["Loperamide"],
    "allergies" := ["Cetirizine", "Loratadine"]
  ]

  /** The medications the table gives for one symptom; none for a symptom it does not know. */
  function TableEntries(symptom: string): set<string> {
    if symptom in SymptomMedicationMap then set m | m in SymptomMedicationMap[symptom] else {}
  }

  /** The candidate set: every medication the table gives for some listed symptom. */
  function OtcCandidates(symptoms: seq<string>): set<string> {
    set s, m | s in symptoms && m in TableEntries(s) :: m
  }

  /** The candidates of a longer symptom list are those of the shorter one plus the new entries. */
  lemma OtcCandidatesAppend(symptoms: seq<string>, symptom: string)
    ensures OtcCandidates(symptoms + [symptom]) == OtcCandidates(symptoms) + TableEntries(symptom)
  {
    var longer := symptoms + [symptom];
    forall m | m in OtcCandidates(longer) ensures m in OtcCandidates(symptoms) + TableEntries(symptom) {
      var s :| s in longer && m in TableEntries(s);
      if s != symptom {
        assert s in symptoms;
      }
    }
    forall m | m in TableEntries(symptom) ensures m in OtcCandidates(longer) {
      assert symptom in longer;
    }
  }

  /** A symptom the table does not know adds no candidate. */
  lemma OtcUnknownSymptomIgnored(symptoms: seq<string>, symptom: string)
    requires symptom !in SymptomMedicationMap
    ensures OtcCandidates(symptoms + [symptom]) == OtcCandidates(symptoms)
  {
    OtcCandidatesAppend(symptoms, symptom);
  }

  /** Repeating a symptom adds no candidate. */
  lemma OtcRepeatedSymptomIgnored(symptoms: seq<string>, symptom: string)
    requires symptom in symptoms
    ensures OtcCandidates(symptoms + [symptom]) == OtcCandidates(symptoms)
  {
    OtcCandidatesAppend(symptoms, symptom);
  }

  /** Headache and fever share both their medications, which are checked once each. */
  lemma OtcHeadacheAndFever(symptoms: seq<string>)
    requires symptoms == ["headache", "fever"]
    ensures OtcCandidates(symptoms) == {"Acetaminophen", "Ibuprofen"}
    ensures |OtcCandidates(symptoms)| == 2
  {
    var pain: set<string> := {"Acetaminophen", "Ibuprofen"};
    OtcPair(symptoms[0], symptoms[1]);
    assert symptoms == [symptoms[0], symptoms[1]];
    PainRelieversFor(symptoms[0], pain);
    PainRelieversFor(symptoms[1], pain);
  }

  lemma OtcPair(a: string, b: string)
    ensures OtcCandidates([a, b]) == TableEntries(a) + TableEntries(b)
  {
    OtcCandidatesAppend([], a);
    OtcCandidatesAppend([a], b);
    assert [a] == [] + [a] && [a, b] == [a] + [b];
    assert OtcCandidates([]) == {};
  }

  lemma PainRelieversFor(symptom: string, pain: set<string>)
    requires symptom == "headache" || symptom == "fever"
    requires pain == {"Acetaminophen", "Ibuprofen"}
    ensures TableEntries(symptom) == pain && |pain| == 2
  {
  }

  /** One entry of either result list. */
  datatype OtcEntry = OtcEntry(medication: string, status: string, interactions: seq<Interaction>)

  /** The result of `recommend_otc_medications`. */
  datatype OtcReport = OtcReport(
    symptoms: seq<string>,
    safeRecommendations: seq<OtcEntry>,
    medicationsWithWarnings: seq<OtcEntry>,
    totalChecked: int,
    safeCount: int)

  function MedicationsOf(entries: seq<OtcEntry>): set<string> {
    set e | e in entries :: e.medication
  }

  predicate DistinctMedications(entries: seq<OtcEntry>) {
    forall i, j | 0 <= i < j < |entries| :: entries[i].medication != entries[j].medication
  }

  /** A "safe" entry: the medication passed the compatibility check. */
  predicate IsSafeEntry(check: InteractionChecker, currentMeds: seq<string>, e: OtcEntry) {
    e.status == "safe" && e.interactions == []
    && CheckMedicationCompatibility(check, currentMeds, e.medication).isCompatible
  }

  /** A "warning" entry: the medication failed the check and carries the records that name it. */
  predicate IsWarningEntry(check: InteractionChecker, currentMeds: seq<string>, e: OtcEntry) {
    var c := CheckMedicationCompatibility(check, currentMeds, e.medication);
    e.status == "warning" && !c.isCompatible && e.interactions == c.interactions
  }

  predicate AllSafeEntries(check: InteractionChecker, currentMeds: seq<string>, entries: seq<OtcEntry>) {
    forall i | 0 <= i < |entries| :: IsSafeEntry(check, currentMeds, entries[i])
  }

  predicate AllWarningEntries(check: InteractionChecker, currentMeds: seq<string>, entries: seq<OtcEntry>) {
    forall i | 0 <= i < |entries| :: IsWarningEntry(check, currentMeds, entries[i])
  }

  lemma AppendSafeEntry(check: InteractionChecker, currentMeds: seq<string>, entries: seq<OtcEntry>, e: OtcEntry)
    requires AllSafeEntries(check, currentMeds, entries) && IsSafeEntry(check, currentMeds, e)
    ensures AllSafeEntries(check, currentMeds, entries + [e])
  {
    var longer := entries + [e];
    forall i | 0 <= i < |longer| ensures IsSafeEntry(check, currentMeds, longer[i]) {
      if i < |entries| { assert longer[i] == entries[i]; }
    }
  }

  lemma AppendWarningEntry(check: InteractionChecker, currentMeds: seq<string>, entries: seq<OtcEntry>, e: OtcEntry)
    requires AllWarningEntries(check, currentMeds, entries) && IsWarningEntry(check, currentMeds, e)
    ensures AllWarningEntries(check, currentMeds, entries + [e])
  {
    var longer := entries + [e];
    forall i | 0 <= i < |longer| ensures IsWarningEntry(check, currentMeds, longer[i]) {
      if i < |entries| { assert longer[i] == entries[i]; }
    }
  }

  /**
   * The bookkeeping of the second loop: the two lists name, without repetition and
   * without overlap, exactly the candidates already checked.
   */
  predicate Partitioned(safe: seq<OtcEntry>, warnings: seq<OtcEntry>, recommended: set<string>, remaining: set<string>) {
    remaining <= recommended
    && MedicationsOf(safe) + MedicationsOf(warnings) == recommended - remaining
    && MedicationsOf(safe) !! MedicationsOf(warnings)
    && DistinctMedications(safe) && DistinctMedications(warnings)
    && |safe| == |MedicationsOf(safe)| && |warnings| == |MedicationsOf(warnings)|
  }

  lemma PartitionedAddSafe(safe: seq<OtcEntry>, warnings: seq<OtcEntry>, recommended: set<string>,
                           remaining: set<string>, e: OtcEntry)
    requires Partitioned(safe, warnings, recommended, remaining) && e.medication in remaining
    ensures Partitioned(safe + [e], warnings, recommended, remaining - {e.medication})
  {
    AppendEntry(safe, e);
    MoveChecked(MedicationsOf(safe), MedicationsOf(warnings), recommended, remaining, e.medication);
  }

  lemma PartitionedAddWarning(safe: seq<OtcEntry>, warnings: seq<OtcEntry>, recommended: set<string>,
                              remaining: set<string>, e: OtcEntry)
    requires Partitioned(safe, warnings, recommended, remaining) && e.medication in remaining
    ensures Partitioned(safe, warnings + [e], recommended, remaining - {e.medication})
  {
    AppendEntry(warnings, e);
    MoveChecked(MedicationsOf(warnings), MedicationsOf(safe), recommended, remaining, e.medication);
  }

  /** Moving one candidate from the unchecked set into one of the two lists keeps the sets in step. */
  lemma MoveChecked(into: set<string>, other: set<string>, recommended: set<string>, remaining: set<string>, m: string)
    requires remaining <= recommended && m in remaining
    requires into + other == recommended - remaining && into !! other
    ensures (into + {m}) + other == recommended - (remaining - {m})
    ensures other + (into + {m}) == recommended - (remaining - {m})
    ensures (into + {m}) !! other && other !! (into + {m})
    ensures m !in into && remaining - {m} <= recommended
  {
  }

  /** Once every candidate is checked, the two lists together are as long as the candidate set. */
  lemma PartitionedComplete(safe: seq<OtcEntry>, warnings: seq<OtcEntry>, recommended: set<string>)
    requires Partitioned(safe, warnings, recommended, {})
    ensures |safe| + |warnings| == |recommended|
  {
    DisjointUnionSize(MedicationsOf(safe), MedicationsOf(warnings));
    assert recommended - {} == recommended;
  }

  /** The first loop of `recommend_otc_medications`: the union of the table entries of the symptoms. */
  method CollectOtcCandidates(symptoms: seq<string>) returns (recommended: set<string>)
    ensures recommended == OtcCandidates(symptoms)
  {
    recommended := {};
    for k := 0 to |symptoms|
      invariant recommended == OtcCandidates(symptoms[..k])
    {
      var symptom := symptoms[k];
      if symptom in SymptomMedicationMap {
        recommended := recommended + set m | m in SymptomMedicationMap[symptom];
      }
      OtcCandidatesAppend(symptoms[..k], symptom);
      assert symptoms[..k + 1] == symptoms[..k] + [symptom];
    }
    assert symptoms[..|symptoms|] == symptoms;
  }

  /**
   * The second loop of `recommend_otc_medications`: each candidate, visited in an
   * unspecified order as a Python set is, is checked and listed as safe or with warnings.
   */
  method SortByCompatibility(check: InteractionChecker, currentMeds: seq<string>, recommended: set<string>)
    returns (safe: seq<OtcEntry>, warnings: seq<OtcEntry>)
    ensures MedicationsOf(safe) + MedicationsOf(warnings) == recommended
    ensures MedicationsOf(safe) !! MedicationsOf(warnings)
    ensures DistinctMedications(safe) && DistinctMedications(warnings)
    ensures AllSafeEntries(check, currentMeds, safe)
    ensures AllWarningEntries(check, currentMeds, warnings)
    ensures |safe| + |warnings| == |recommended|
  {
    safe, warnings := [], [];
    var remaining := recommended;
    while remaining != {}
      invariant Partitioned(safe, warnings, recommended, remaining)
      invariant AllSafeEntries(check, currentMeds, safe)
      invariant AllWarningEntries(check, currentMeds, warnings)
      decreases |remaining|
    {
      var medName :| medName in remaining;
      var compatibility := CheckMedicationCompatibility(check, currentMeds, medName);
      if compatibility.isCompatible {
        var entry := OtcEntry(medName, "safe", []);
        AppendSafeEntry(check, currentMeds, safe, entry);
        PartitionedAddSafe(safe, warnings, recommended, remaining, entry);
        safe := safe + [entry];
      } else {
        var entry := OtcEntry(medName, "warning", compatibility.interactions);
        AppendWarningEntry(check, currentMeds, warnings, entry);
        PartitionedAddWarning(safe, warnings, recommended, remaining, entry);
        warnings := warnings + [entry];
      }
      remaining := remaining - {medName};
    }
    PartitionedComplete(safe, warnings, recommended);
  }

  /** `recommend_otc_medications`, given the current medication names. */
  method RecommendOtcMedications(check: InteractionChecker, currentMeds: seq<string>, symptoms: seq<string>)
    returns (report: OtcReport)
    ensures report.symptoms == symptoms
    ensures MedicationsOf(report.safeRecommendations) + MedicationsOf(report.medicationsWithWarnings)
      == OtcCandidates(symptoms)
    ensures MedicationsOf(report.safeRecommendations) !! MedicationsOf(report.medicationsWithWarnings)
    ensures DistinctMedications(report.safeRecommendations) && DistinctMedications(report.medicationsWithWarnings)
    ensures AllSafeEntries(check, currentMeds, report.safeRecommendations)
    ensures AllWarningEntries(check, currentMeds, report.medicationsWithWarnings)
    ensures report.totalChecked == |OtcCandidates(symptoms)|
    ensures report.safeCount == |report.safeRecommendations|
    ensures report.safeCount + |report.medicationsWithWarnings| == report.totalChecked
  {
    var recommended := CollectOtcCandidates(symptoms);
    var safe, warnings := SortByCompatibility(check, currentMeds, recommended);
    report := OtcReport(symptoms, safe, warnings, |recommended|, |safe|);
  }

  /** Appending an entry for a medication not yet listed keeps the names distinct and counts it once. */
  lemma AppendEntry(entries: seq<OtcEntry>, e: OtcEntry)
    requires DistinctMedications(entries) && e.medication !in MedicationsOf(entries)
    ensures MedicationsOf(entries + [e]) == MedicationsOf(entries) + {e.medication}
    ensures DistinctMedications(entries + [e])
    ensures |MedicationsOf(entries + [e])| == |MedicationsOf(entries)| + 1
  {
    var longer := entries + [e];
    forall i | 0 <= i < |entries| ensures longer[i] == entries[i] && longer[i] in entries {
    }
    assert longer[|entries|] == e;
  }

  lemma DisjointUnionSize(a: set<string>, b: set<string>)
    requires a !! b
    ensures |a + b| == |a| + |b|
  {
    assert a * b == {};
  }

  // ---------------------------------------------------------------------------
  // prescribe_medication
  // ---------------------------------------------------------------------------

  /** A prescription row; `prescribedDate` is the clock reading passed in. */
  datatype Prescription = Prescription(
    patientId: int,
    medicationId: int,
    dosage: string,
    frequency: string,
    duration: string,
    prescribedDate: int,
    active: int)

  /** Some record names the medication and is major. */
  predicate HasMajorConflict(records: seq<Interaction>, name: string) {
    exists i | 0 <= i < |records| :: Involves(records[i], name) && records[i].severity == Major
  }

  /**
   * The decision part of `prescribe_medication`: `lookup` is the id of the medication
   * found by name, if any, and `now` the clock reading.
   */
  function PrescribeMedication(check: InteractionChecker, currentMeds: seq<string>, patientId: int,
                               medicationName: string, lookup: Option<int>,
                               dosage: string, frequency: string, duration: string, now: int)
    : (r: Option<Prescription>)
    ensures r.None? <==> HasMajorConflict(check(currentMeds + [medicationName]), medicationName) || lookup.None?
    ensures r.Some? ==>
      r.value == Prescription(patientId, lookup.value, dosage, frequency, duration, now, 1)
  {
    var compatibility := CheckMedicationCompatibility(check, currentMeds, medicationName);
    var records := check(currentMeds + [medicationName]);
    if !compatibility.isCompatible && Filter(compatibility.interactions, (i: Interaction) => i.severity == Major) != [] then
      MajorRefusal(records, medicationName, compatibility.interactions);
      None
    else if lookup.None? then
      None
    else
      NoMajorConflict(records, medicationName, compatibility.interactions);
      Some(Prescription(patientId, lookup.value, dosage, frequency, duration, now, 1))
  }

  lemma MajorRefusal(records: seq<Interaction>, name: string, relevant: seq<Interaction>)
    requires relevant == RelevantInteractions(records, name)
    requires HasSeverity(relevant, Major)
    ensures HasMajorConflict(records, name)
  {
    var i :| 0 <= i < |relevant| && relevant[i].severity == Major;
    assert multiset(relevant)[relevant[i]] > 0;
    assert relevant[i] in records;
  }

  lemma NoMajorConflict(records: seq<Interaction>, name: string, relevant: seq<Interaction>)
    requires relevant == RelevantInteractions(records, name)
    requires !HasSeverity(relevant, Major)
    ensures !HasMajorConflict(records, name)
  {
    forall i | 0 <= i < |records| && Involves(records[i], name) ensures records[i].severity != Major {
      assert multiset(records)[records[i]] > 0;
      assert records[i] in relevant;
    }
  }

  /**
   * When the medication is on file, prescribing is refused exactly when the
   * compatibility check recommends against it with the major text.
   */
  lemma PrescribeRefusedIffMajorText(check: InteractionChecker, currentMeds: seq<string>, patientId: int,
                                     medicationName: string, id: int,
                                     dosage: string, frequency: string, duration: string, now: int)
    ensures PrescribeMedication(check, currentMeds, patientId, medicationName, Some(id), dosage, frequency, duration, now).None?
      <==> CheckMedicationCompatibility(check, currentMeds, medicationName).recommendation == MajorText
  {
    var c := CheckMedicationCompatibility(check, currentMeds, medicationName);
    var records := check(currentMeds + [medicationName]);
    RecommendationTextsDistinct();
    if HasSeverity(c.interactions, Major) {
      MajorRefusal(records, medicationName, c.interactions);
    } else {
      NoMajorConflict(records, medicationName, c.interactions);
    }
  }
}
