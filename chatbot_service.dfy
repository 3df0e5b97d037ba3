/**
 * The pure text helpers of the chatbot service: symptom normalisation, the
 * medication-name and age validators, and the removal of a Markdown code fence
 * around a language-model reply.
 *
 * Characters follow Python's `str` semantics on the ASCII range: `str.isspace`
 * and the regex class `\s` are the ASCII whitespace characters, `str.lower`
 * maps `A`..`Z` to `a`..`z`, and `\w` is `[A-Za-z0-9_]`.
 */
module ChatbotService {

  // ---------------------------------------------------------------------------
  // Character classes
  // ---------------------------------------------------------------------------

  /** Python's whitespace on ASCII: space, \t \n \v \f \r and the separators 0x1C..0x1F. */
  predicate IsSpace(c: char) {
    c == ' ' || c == '\t' || c == '\n' || c == '\r' || c == '\U{000B}' || c == '\U{000C}'
    || ('\U{001C}' <= c <= '\U{001F}')
  }

  predicate IsLower(c: char) { 'a' <= c <= 'z' }

  predicate IsUpper(c: char) { 'A' <= c <= 'Z' }

  predicate IsDigit(c: char) { '0' <= c <= '9' }

  /** The regex class `\w`. */
  predicate IsWordChar(c: char) { IsLower(c) || IsUpper(c) || IsDigit(c) || c == '_' }

  /** The alphabet of a normalised symptom, `[a-z0-9_]`. */
  predicate IsSymptomChar(c: char) { IsLower(c) || IsDigit(c) || c == '_' }

  /** The class `[a-zA-Z0-9\s\-\(\)\.]` accepted in a medication name. */
  predicate IsMedicationChar(c: char) {
    IsLower(c) || IsUpper(c) || IsDigit(c) || IsSpace(c) || c == '-' || c == '(' || c == ')' || c == '.'
  }

  predicate AllSpace(s: seq<char>) {
    forall i | 0 <= i < |s| :: IsSpace(s[i])
  }

  /** `s` has no whitespace at either end (what `str.strip` leaves). */
  predicate Trimmed(s: seq<char>) {
    s == [] || (!IsSpace(s[0]) && !IsSpace(s[|s| - 1]))
  }

  // ---------------------------------------------------------------------------
  // str.lower and str.strip
  // ---------------------------------------------------------------------------

  function ToLower(c: char): (r: char)
    ensures IsUpper(c) ==> IsLower(r) && r as int == c as int + 32
    ensures !IsUpper(c) ==> r == c
  {
    if IsUpper(c) then (c as int + 32) as char else c
  }

  function LowerAll(s: seq<char>): (r: seq<char>)
    ensures |r| == |s|
    ensures forall i | 0 <= i < |s| :: r[i] == ToLower(s[i])
  {
    seq(|s|, i requires 0 <= i < |s| => ToLower(s[i]))
  }

  /** The number of whitespace characters at the start of `s`. */
  function LeadingSpaces(s: seq<char>): (n: nat)
    ensures n <= |s|
    ensures forall i | 0 <= i < n :: IsSpace(s[i])
    ensures n == |s| || !IsSpace(s[n])
  {
    if s == [] || !IsSpace(s[0]) then 0
    else
      var m := LeadingSpaces(s[1..]);
      assert forall i | 1 <= i < m + 1 :: s[i] == s[1..][i - 1];
      m + 1
  }

  /** Where the whitespace at the end of `s` begins. */
  function TrailingStart(s: seq<char>): (n: nat)
    ensures n <= |s|
    ensures forall i | n <= i < |s| :: IsSpace(s[i])
    ensures n == 0 || !IsSpace(s[n - 1])
  {
    if s == [] || !IsSpace(s[|s| - 1]) then |s|
    else
      var m := TrailingStart(s[..|s| - 1]);
      assert forall i | m <= i < |s| - 1 :: s[i] == s[..|s| - 1][i];
      m
  }

  /** A whitespace prefix followed by a non-space is exactly what `LeadingSpaces` counts. */
  lemma LeadingSpacesAt(s: seq<char>, k: nat)
    requires k <= |s|
    requires forall i | 0 <= i < k :: IsSpace(s[i])
    requires k == |s| || !IsSpace(s[k])
    ensures LeadingSpaces(s) == k
  {
  }

  lemma TrailingStartAt(s: seq<char>, k: nat)
    requires k <= |s|
    requires forall i | k <= i < |s| :: IsSpace(s[i])
    requires k == 0 || !IsSpace(s[k - 1])
    ensures TrailingStart(s) == k
  {
  }

  lemma LeadingSpacesOfPadded(w: seq<char>, y: seq<char>)
    requires AllSpace(w)
    requires y == [] || !IsSpace(y[0])
    ensures LeadingSpaces(w + y) == |w|
  {
    var s := w + y;
    forall i | 0 <= i < |w| ensures IsSpace(s[i]) {
      assert s[i] == w[i];
    }
    if y != [] {
      assert s[|w|] == y[0];
    }
    LeadingSpacesAt(s, |w|);
  }

  lemma TrailingStartOfPadded(y: seq<char>, w: seq<char>)
    requires AllSpace(w)
    requires y == [] || !IsSpace(y[|y| - 1])
    ensures TrailingStart(y + w) == |y|
  {
    var s := y + w;
    forall i | |y| <= i < |s| ensures IsSpace(s[i]) {
      assert s[i] == w[i - |y|];
    }
    if y != [] {
      assert s[|y| - 1] == y[|y| - 1];
    }
    TrailingStartAt(s, |y|);
  }

  /** Python's `str.strip()`: what lies between the leading and the trailing whitespace. */
  function Strip(s: seq<char>): (r: seq<char>)
    ensures Trimmed(r)
    ensures |r| <= |s|
  {
    var a := LeadingSpaces(s);
    var e := TrailingStart(s);
    if e <= a then [] else s[a..e]
  }

  /** The stripped string sits in the input between two runs of whitespace. */
  lemma StripSplits(s: seq<char>) returns (i: nat)
    ensures i + |Strip(s)| <= |s|
    ensures s == s[..i] + Strip(s) + s[i + |Strip(s)|..]
    ensures AllSpace(s[..i]) && AllSpace(s[i + |Strip(s)|..])
  {
    var a, e := LeadingSpaces(s), TrailingStart(s);
    if e <= a {
      i := 0;
      StripOfAllSpace(s);
    } else {
      i := a;
      StripSplitsAt(s, a, e);
    }
  }

  lemma StripOfAllSpace(s: seq<char>)
    requires TrailingStart(s) <= LeadingSpaces(s)
    ensures Strip(s) == []
    ensures s == s[..0] + [] + s[0..] && AllSpace(s[..0]) && AllSpace(s[0..])
  {
    var a, e := LeadingSpaces(s), TrailingStart(s);
    assert forall j | 0 <= j < |s| :: IsSpace(s[j]) by {
      forall j | 0 <= j < |s| ensures IsSpace(s[j]) {
        assert j < a || e <= j;
      }
    }
    assert s[0..] == s;
  }

  lemma StripSplitsAt(s: seq<char>, a: nat, e: nat)
    requires a == LeadingSpaces(s) && e == TrailingStart(s) && a < e
    ensures Strip(s) == s[a..e]
    ensures s == s[..a] + s[a..e] + s[e..]
    ensures AllSpace(s[..a]) && AllSpace(s[e..])
  {
    SplitThree(s, a, e);
    LeadingSpacesPrefix(s);
    TrailingSpacesSuffix(s);
  }

  lemma SplitThree(s: seq<char>, i: nat, j: nat)
    requires i <= j <= |s|
    ensures s == s[..i] + s[i..j] + s[j..]
  {
    assert s[..i] + s[i..j] == s[..j];
  }

  lemma LeadingSpacesPrefix(s: seq<char>)
    ensures AllSpace(s[..LeadingSpaces(s)])
  {
    var left := s[..LeadingSpaces(s)];
    forall j | 0 <= j < |left| ensures IsSpace(left[j]) {
      assert left[j] == s[j];
    }
  }

  lemma TrailingSpacesSuffix(s: seq<char>)
    ensures AllSpace(s[TrailingStart(s)..])
  {
    var e := TrailingStart(s);
    var right := s[e..];
    forall j | 0 <= j < |right| ensures IsSpace(right[j]) {
      assert right[j] == s[e + j];
    }
  }

  lemma AllSpaceAppend(x: seq<char>, y: seq<char>)
    requires AllSpace(x) && AllSpace(y)
    ensures AllSpace(x + y)
  {
    forall j | 0 <= j < |x + y| ensures IsSpace((x + y)[j]) {
      if j < |x| { assert (x + y)[j] == x[j]; } else { assert (x + y)[j] == y[j - |x|]; }
    }
  }

  /** `str.strip` removes exactly the whitespace padding around a trimmed string. */
  lemma StripPadded(w1: seq<char>, x: seq<char>, w2: seq<char>)
    requires AllSpace(w1) && AllSpace(w2) && Trimmed(x)
    ensures Strip(w1 + x + w2) == x
  {
    var s := w1 + x + w2;
    if x == [] {
      assert s == (w1 + w2) + [];
      AllSpaceAppend(w1, w2);
      LeadingSpacesOfPadded(w1 + w2, []);
      assert s == [] + (w1 + w2);
      TrailingStartOfPadded([], w1 + w2);
    } else {
      assert s == w1 + (x + w2);
      assert (x + w2)[0] == x[0];
      LeadingSpacesOfPadded(w1, x + w2);
      assert s == (w1 + x) + w2;
      assert (w1 + x)[|w1 + x| - 1] == x[|x| - 1];
      TrailingStartOfPadded(w1 + x, w2);
      assert s[|w1|..|w1| + |x|] == x;
    }
  }

  /** `str.strip` leaves a string without outer whitespace unchanged. */
  lemma StripTrimmed(x: seq<char>)
    requires Trimmed(x)
    ensures Strip(x) == x
  {
    LeadingSpacesAt(x, 0);
    TrailingStartAt(x, |x|);
    assert x[0..|x|] == x;
  }

  // ---------------------------------------------------------------------------
  // normalize_symptom
  // ---------------------------------------------------------------------------

  /**
   * `re.sub(r"\s+", "_", s)` as a left-to-right scan: `inRun` says whether the
   * previous character was whitespace, so only the first character of a run emits `_`.
   */
  function SquashFrom(s: seq<char>, inRun: bool): (r: seq<char>)
    ensures |r| <= |s|
  {
    if s == [] then [] else SquashHead(s[0], inRun) + SquashFrom(s[1..], IsSpace(s[0]))
  }

  /** What the scan emits for one character: `_` opening a whitespace run, nothing inside one. */
  function SquashHead(c: char, inRun: bool): (r: seq<char>)
    ensures |r| <= 1
    ensures r != [] ==> !IsSpace(r[0])
  {
    if IsSpace(c) then (if inRun then [] else "_") else [c]
  }

  function SquashSpaces(s: seq<char>): (r: seq<char>)
    ensures |r| <= |s|
    ensures forall i | 0 <= i < |r| :: !IsSpace(r[i])
  {
    SquashFromNoSpaces(s, false);
    SquashFrom(s, false)
  }

  lemma {:induction false} SquashFromNoSpaces(s: seq<char>, inRun: bool)
    ensures forall i | 0 <= i < |SquashFrom(s, inRun)| :: !IsSpace(SquashFrom(s, inRun)[i])
    decreases |s|
  {
    if s != [] {
      SquashFromNoSpaces(s[1..], IsSpace(s[0]));
      var h, t := SquashHead(s[0], inRun), SquashFrom(s[1..], IsSpace(s[0]));
      forall i | 0 <= i < |h + t| ensures !IsSpace((h + t)[i]) {
        if i < |h| { assert (h + t)[i] == h[0]; } else { assert (h + t)[i] == t[i - |h|]; }
      }
    }
  }

  /** Whether the scan is inside a whitespace run after reading `a`. */
  function InRunAfter(a: seq<char>, inRun: bool): bool {
    if a == [] then inRun else IsSpace(a[|a| - 1])
  }

  /** The scan distributes over concatenation, carrying its run state across. */
  lemma {:induction false} SquashFromAppend(a: seq<char>, x: seq<char>, inRun: bool)
    ensures SquashFrom(a + x, inRun) == SquashFrom(a, inRun) + SquashFrom(x, InRunAfter(a, inRun))
    decreases |a|
  {
    if a == [] {
      assert a + x == x;
    } else {
      var next := IsSpace(a[0]);
      var ax := a + x;
      assert ax[0] == a[0] && ax[1..] == a[1..] + x;
      SquashFromAppend(a[1..], x, next);
      assert InRunAfter(a[1..], next) == InRunAfter(a, inRun);
      assert SquashFrom(ax, inRun) == SquashHead(a[0], inRun) + SquashFrom(a[1..] + x, next);
      AppendAssoc(SquashHead(a[0], inRun), SquashFrom(a[1..], next), SquashFrom(x, InRunAfter(a, inRun)));
    }
  }

  lemma AppendAssoc(h: seq<char>, p: seq<char>, q: seq<char>)
    ensures h + (p + q) == (h + p) + q
  {
  }

  /** Text without whitespace passes the scan unchanged. */
  lemma {:induction false} SquashFromNoSpace(s: seq<char>, inRun: bool)
    requires forall i | 0 <= i < |s| :: !IsSpace(s[i])
    ensures SquashFrom(s, inRun) == s
    decreases |s|
  {
    if s != [] {
      SquashFromNoSpace(s[1..], false);
    }
  }

  /** A non-empty whitespace run, read outside a run, yields one `_`. */
  lemma {:induction false} SquashFromRun(w: seq<char>, inRun: bool)
    requires w != [] && AllSpace(w)
    ensures SquashFrom(w, inRun) == if inRun then [] else "_"
    decreases |w|
  {
    if |w| > 1 {
      SquashFromRun(w[1..], true);
    }
  }

  /** `re.sub(r"[^a-z0-9_]", "", s)`. */
  function KeepSymptomChars(s: seq<char>): (r: seq<char>)
    ensures |r| <= |s|
    ensures forall i | 0 <= i < |r| :: IsSymptomChar(r[i])
  {
    if s == [] then []
    else if IsSymptomChar(s[0]) then [s[0]] + KeepSymptomChars(s[1..])
    else KeepSymptomChars(s[1..])
  }

  /** Text already in `[a-z0-9_]` loses nothing to the filter. */
  lemma {:induction false} KeepSymptomCharsFixes(s: seq<char>)
    requires forall i | 0 <= i < |s| :: IsSymptomChar(s[i])
    ensures KeepSymptomChars(s) == s
    decreases |s|
  {
    if s != [] {
      KeepSymptomCharsFixes(s[1..]);
    }
  }

  /** The filter works character by character: it splits over a concatenation. */
  lemma {:induction false} KeepSymptomCharsAppend(a: seq<char>, b: seq<char>)
    ensures KeepSymptomChars(a + b) == KeepSymptomChars(a) + KeepSymptomChars(b)
    decreases |a|
  {
    if a == [] {
      assert [] + b == b;
    } else {
      assert (a + b)[0] == a[0];
      assert (a + b)[1..] == a[1..] + b;
      KeepSymptomCharsAppend(a[1..], b);
      if IsSymptomChar(a[0]) {
        AppendAssoc([a[0]], KeepSymptomChars(a[1..]), KeepSymptomChars(b));
      }
    }
  }

  /** One character is kept exactly when it is in `[a-z0-9_]`. */
  lemma KeepSymptomCharsOne(c: char)
    ensures KeepSymptomChars([c]) == if IsSymptomChar(c) then [c] else []
  {
    assert [c][1..] == [];
  }

  /** `normalize_symptom`: lower-case, strip, whitespace runs to `_`, drop the rest. */
  function NormalizeSymptom(symptom: seq<char>): (r: seq<char>)
    ensures symptom == [] ==> r == []
    ensures forall i | 0 <= i < |r| :: IsSymptomChar(r[i])
  {
    if symptom == [] then []
    else KeepSymptomChars(SquashSpaces(Strip(LowerAll(symptom))))
  }

  /** A whitespace run between two non-space characters becomes exactly one `_`. */
  lemma SquashSpacesRun(a: seq<char>, w: seq<char>, b: seq<char>)
    requires a == [] || !IsSpace(a[|a| - 1])
    requires w != [] && AllSpace(w)
    requires b == [] || !IsSpace(b[0])
    ensures SquashSpaces(a + w + b) == SquashSpaces(a) + "_" + SquashSpaces(b)
  {
    calc {
      SquashSpaces(a + w + b);
      { assert a + w + b == a + (w + b); }
      SquashFrom(a + (w + b), false);
      { assert !InRunAfter(a, false); SquashFromAppend(a, w + b, false); }
      SquashFrom(a, false) + SquashFrom(w + b, false);
      { SquashRunThenText(w, b); }
      SquashFrom(a, false) + ("_" + SquashFrom(b, false));
      SquashSpaces(a) + "_" + SquashSpaces(b);
    }
  }

  lemma SquashRunThenText(w: seq<char>, b: seq<char>)
    requires w != [] && AllSpace(w)
    requires b == [] || !IsSpace(b[0])
    ensures SquashFrom(w + b, false) == "_" + SquashFrom(b, false)
  {
    SquashFromAppend(w, b, false);
    SquashFromRun(w, false);
    assert InRunAfter(w, false);
    SquashFromAfterRun(b);
  }

  /** Whether a run was open before does not matter once a non-space comes next. */
  lemma SquashFromAfterRun(b: seq<char>)
    requires b == [] || !IsSpace(b[0])
    ensures SquashFrom(b, true) == SquashFrom(b, false)
  {
  }

  /** Text already in the normalised alphabet is left unchanged. */
  lemma {:induction false} NormalizeFixesCanonical(s: seq<char>)
    requires forall i | 0 <= i < |s| :: IsSymptomChar(s[i])
    ensures NormalizeSymptom(s) == s
  {
    if s != [] {
      assert forall i | 0 <= i < |s| :: !IsSpace(s[i]);
      assert LowerAll(s) == s;
      StripTrimmed(s);
      assert Strip(s) == s;
      SquashFromNoSpace(s, false);
      KeepSymptomCharsFixes(s);
    }
  }

  /** Normalising twice is normalising once. */
  lemma NormalizeIdempotent(s: seq<char>)
    ensures NormalizeSymptom(NormalizeSymptom(s)) == NormalizeSymptom(s)
  {
    NormalizeFixesCanonical(NormalizeSymptom(s));
  }

  lemma Regroup(a: seq<char>, b: seq<char>, c: seq<char>, d: seq<char>, e: seq<char>)
    ensures a + (b + c + d) + e == (a + b) + c + (d + e)
  {
  }

  /** Extra whitespace around the input does not change what `str.strip` returns. */
  lemma StripIgnoresPadding(w1: seq<char>, t: seq<char>, w2: seq<char>)
    requires AllSpace(w1) && AllSpace(w2)
    ensures Strip(w1 + t + w2) == Strip(t)
  {
    var x := Strip(t);
    var i := StripSplits(t);
    var left, right := t[..i], t[i + |x|..];
    AllSpaceAppend(w1, left);
    AllSpaceAppend(right, w2);
    Regroup(w1, left, x, right, w2);
    StripPadded(w1 + left, x, right + w2);
  }

  /** Leading and trailing whitespace do not change the normalised symptom. */
  lemma NormalizeIgnoresPadding(w1: seq<char>, s: seq<char>, w2: seq<char>)
    requires AllSpace(w1) && AllSpace(w2)
    ensures NormalizeSymptom(w1 + s + w2) == NormalizeSymptom(s)
  {
    var lowered := LowerAll(s);
    LowerPadded(w1, s, w2);
    StripIgnoresPadding(w1, lowered, w2);
  }

  /** Lower-casing leaves whitespace alone. */
  lemma LowerPadded(w1: seq<char>, s: seq<char>, w2: seq<char>)
    requires AllSpace(w1) && AllSpace(w2)
    ensures LowerAll(w1 + s + w2) == w1 + LowerAll(s) + w2
  {
    var t, u := w1 + s + w2, w1 + LowerAll(s) + w2;
    forall i | 0 <= i < |t| ensures LowerAll(t)[i] == u[i] {
      if i < |w1| {
        assert t[i] == w1[i] == u[i];
      } else if i < |w1| + |s| {
        assert t[i] == s[i - |w1|];
        assert u[i] == LowerAll(s)[i - |w1|];
      } else {
        assert t[i] == w2[i - |w1| - |s|] == u[i];
      }
    }
  }

  // The worked examples below are split into one lemma per step of the pipeline.
  // The strings of each step are parameters fixed by `requires`, not local
  // literals: a function applied to a literal is unfolded character by character,
  // and doing that for the whole pipeline at once is too costly to verify.

  /** A worked example: "Runny  Nose" becomes "runny_nose". */
  lemma NormalizeRunnyNose(symptom: seq<char>, expected: seq<char>)
    requires symptom == "Runny  Nose" && expected == "runny_nose"
    ensures NormalizeSymptom(symptom) == expected
  {
    var a, w, b := "runny", "  ", "nose";
    RunnyNoseLowered(symptom, a, w, b);
    RunnyNoseSquashed(a, w, b);
    RunnyNoseJoined(a, b, expected);
    KeepSymptomCharsFixes(expected);
  }

  /** A worked example: punctuation is dropped, so "Runny!Nose" becomes "runnynose". */
  lemma NormalizeRunnyBangNose(symptom: seq<char>, expected: seq<char>)
    requires symptom == "Runny!Nose" && expected == "runnynose"
    ensures NormalizeSymptom(symptom) == expected
  {
    var t := "runny!nose";
    RunnyBangNoseLowered(symptom, t);
    RunnyBangNoseSquashed(t);
    assert t == "runny" + "!" + "nose";
    RunnyBangNoseKept("runny", "!", "nose", expected);
  }

  lemma RunnyBangNoseLowered(symptom: seq<char>, t: seq<char>)
    requires symptom == "Runny!Nose" && t == "runny!nose"
    ensures LowerAll(symptom) == t
  {
  }

  lemma RunnyBangNoseSquashed(t: seq<char>)
    requires t == "runny!nose"
    ensures SquashSpaces(Strip(t)) == t
  {
    assert Trimmed(t);
    StripTrimmed(t);
    SquashFromNoSpace(t, false);
  }

  lemma RunnyBangNoseKept(a: seq<char>, bang: seq<char>, b: seq<char>, expected: seq<char>)
    requires a == "runny" && bang == "!" && b == "nose" && expected == "runnynose"
    ensures KeepSymptomChars(a + bang + b) == expected
  {
    KeepSymptomCharsAppend(a + bang, b);
    KeepSymptomCharsAppend(a, bang);
    KeepSymptomCharsOne('!');
    KeepSymptomCharsFixes(a);
    KeepSymptomCharsFixes(b);
    RunnyNoseJoinedPlain(a, b, expected);
  }

  lemma RunnyNoseJoinedPlain(a: seq<char>, b: seq<char>, expected: seq<char>)
    requires a == "runny" && b == "nose" && expected == "runnynose"
    ensures a + [] + b == expected
  {
  }

  lemma RunnyNoseJoined(a: seq<char>, b: seq<char>, expected: seq<char>)
    requires a == "runny" && b == "nose" && expected == "runny_nose"
    ensures a + "_" + b == expected
    ensures forall i | 0 <= i < |expected| :: IsSymptomChar(expected[i])
  {
  }

  lemma RunnyNoseLowered(symptom: seq<char>, a: seq<char>, w: seq<char>, b: seq<char>)
    requires symptom == "Runny  Nose" && a == "runny" && w == "  " && b == "nose"
    ensures LowerAll(symptom) == a + w + b
  {
  }

  lemma RunnyNoseSquashed(a: seq<char>, w: seq<char>, b: seq<char>)
    requires a == "runny" && w == "  " && b == "nose"
    ensures SquashSpaces(Strip(a + w + b)) == a + "_" + b
  {
    StripTrimmed(a + w + b);
    SquashSpacesRun(a, w, b);
    SquashFromNoSpace(a, false);
    SquashFromNoSpace(b, false);
  }

  // ---------------------------------------------------------------------------
  // validate_medication and validate_age
  // ---------------------------------------------------------------------------

  /** The regex `^[a-zA-Z0-9\s\-\(\)\.]+$` without its non-emptiness. */
  function AllMedicationChars(s: seq<char>): (r: bool)
    ensures r <==> forall i | 0 <= i < |s| :: IsMedicationChar(s[i])
  {
    s == [] || (IsMedicationChar(s[0]) && AllMedicationChars(s[1..]))
  }

  /** `validate_medication`: a non-empty name made only of allowed characters. */
  function ValidateMedication(medication: seq<char>): (r: bool)
    ensures r <==> medication != [] && forall i | 0 <= i < |medication| :: IsMedicationChar(medication[i])
  {
    if medication == [] then false else AllMedicationChars(medication)
  }

  /** `validate_age`: an age between 0 and 120 inclusive. */
  function ValidateAge(age: int): (r: bool)
    ensures r <==> 0 <= age <= 120
  {
    0 <= age <= 120
  }

  // ---------------------------------------------------------------------------
  // ChatbotService._clean_json_string
  // ---------------------------------------------------------------------------

  const Fence: seq<char> := "```"

  predicate StartsWithFence(s: seq<char>) { |s| >= 3 && s[..3] == Fence }

  predicate EndsWithFence(s: seq<char>) { |s| >= 3 && s[|s| - 3..] == Fence }

  /** The number of word characters at the start of `s`. */
  function LeadingWordChars(s: seq<char>): (n: nat)
    ensures n <= |s|
    ensures forall i | 0 <= i < n :: IsWordChar(s[i])
    ensures n == |s| || !IsWordChar(s[n])
  {
    if s == [] || !IsWordChar(s[0]) then 0
    else
      var m := LeadingWordChars(s[1..]);
      assert forall i | 1 <= i < m + 1 :: s[i] == s[1..][i - 1];
      m + 1
  }

  lemma LeadingWordCharsAt(s: seq<char>, k: nat)
    requires k <= |s|
    requires forall i | 0 <= i < k :: IsWordChar(s[i])
    requires k == |s| || !IsWordChar(s[k])
    ensures LeadingWordChars(s) == k
  {
  }

  lemma LeadingWordCharsOfPrefixed(w: seq<char>, y: seq<char>)
    requires forall i | 0 <= i < |w| :: IsWordChar(w[i])
    requires y == [] || !IsWordChar(y[0])
    ensures LeadingWordChars(w + y) == |w|
  {
    var s := w + y;
    forall i | 0 <= i < |w| ensures IsWordChar(s[i]) {
      assert s[i] == w[i];
    }
    if y != [] {
      assert s[|w|] == y[0];
    }
    LeadingWordCharsAt(s, |w|);
  }

  /** Where the `\w*` run after the opening fence ends. */
  function TagEnd(t: seq<char>): (k: nat)
    requires StartsWithFence(t)
    ensures 3 <= k <= |t|
    ensures forall i | 3 <= i < k :: IsWordChar(t[i])
    ensures k == |t| || !IsWordChar(t[k])
  {
    var n := LeadingWordChars(t[3..]);
    assert forall i | 3 <= i < 3 + n :: t[i] == t[3..][i - 3];
    assert 3 + n < |t| ==> t[3 + n] == t[3..][n];
    3 + n
  }

  /**
   * Where the text of `re.sub(r"^```\w*\s*", "", t)` begins: after the fence, the
   * longest run of word characters, then the longest run of whitespace.
   */
  function OpeningFenceEnd(t: seq<char>): (m: nat)
    requires StartsWithFence(t)
    ensures TagEnd(t) <= m <= |t|
    ensures forall i | TagEnd(t) <= i < m :: IsSpace(t[i])
    ensures m == |t| || !IsSpace(t[m])
  {
    var k := TagEnd(t);
    var n := LeadingSpaces(t[k..]);
    assert forall i | k <= i < k + n :: t[i] == t[k..][i - k];
    assert k + n < |t| ==> t[k + n] == t[k..][n];
    k + n
  }

  /**
   * Where the match of `\s*```$` begins in a string that ends with a fence: the
   * whitespace run just before the closing fence.
   */
  function ClosingFenceStart(u: seq<char>): (n: nat)
    requires EndsWithFence(u)
    ensures n + 3 <= |u|
    ensures forall i | n <= i < |u| - 3 :: IsSpace(u[i])
    ensures n == 0 || !IsSpace(u[n - 1])
  {
    var body := u[..|u| - 3];
    var n := TrailingStart(body);
    assert forall i | n <= i < |u| - 3 :: u[i] == body[i];
    assert n > 0 ==> u[n - 1] == body[n - 1];
    n
  }

  /** `r` is the part of `c` that starts at index `m`. */
  predicate SliceAt(c: seq<char>, m: nat, r: seq<char>) {
    m + |r| <= |c| && r == c[m..m + |r|]
  }

  /** `re.sub(r"\s*```$", "", u)`. */
  function DropClosingFence(u: seq<char>): (r: seq<char>)
    ensures |r| <= |u| && r == u[..|r|]
    ensures !EndsWithFence(u) ==> r == u
    ensures EndsWithFence(u) ==> |r| == ClosingFenceStart(u)
  {
    if EndsWithFence(u) then u[..ClosingFenceStart(u)] else u
  }

  /** The two substitutions applied to a stripped reply that starts with a fence. */
  function Unfence(c: seq<char>): (r: seq<char>)
    requires StartsWithFence(c) && Trimmed(c)
    ensures SliceAt(c, OpeningFenceEnd(c), r)
    ensures r == DropClosingFence(c[OpeningFenceEnd(c)..])
    ensures Trimmed(r)
  {
    UnfenceTrimmed(c);
    DropClosingFence(c[OpeningFenceEnd(c)..])
  }

  /** Cutting a trimmed reply at both fences leaves no space at either end. */
  lemma UnfenceTrimmed(c: seq<char>)
    requires StartsWithFence(c) && Trimmed(c)
    ensures var m := OpeningFenceEnd(c); var r := DropClosingFence(c[m..]);
      SliceAt(c, m, r) && Trimmed(r)
  {
    var m := OpeningFenceEnd(c);
    var u := c[m..];
    var r := DropClosingFence(u);
    assert r == u[..|r|];
    if r != [] {
      assert r[0] == c[m];
      if EndsWithFence(u) {
        assert r[|r| - 1] == u[|r| - 1];
      } else {
        assert r[|r| - 1] == c[|c| - 1];
      }
    }
  }

  /** `ChatbotService._clean_json_string`. */
  function CleanJsonString(jsonString: seq<char>): (r: seq<char>)
    ensures !StartsWithFence(Strip(jsonString)) ==> r == Strip(jsonString)
    ensures StartsWithFence(Strip(jsonString)) ==>
      SliceAt(Strip(jsonString), OpeningFenceEnd(Strip(jsonString)), r)
    ensures StartsWithFence(Strip(jsonString)) ==>
      r == DropClosingFence(Strip(jsonString)[OpeningFenceEnd(Strip(jsonString))..])
    ensures Trimmed(r)
  {
    var cleaned := Strip(jsonString);
    if StartsWithFence(cleaned) then Unfence(cleaned) else cleaned
  }

  /** Everything after the opening fence and its tag is kept, up to the closing one. */
  lemma CleanJsonShortens(jsonString: seq<char>)
    requires StartsWithFence(Strip(jsonString))
    ensures |CleanJsonString(jsonString)| + 3 <= |Strip(jsonString)|
  {
  }

  /**
   * A reply wrapped as "```tag", whitespace, body, whitespace, "```" cleans to its
   * body, provided the tag cannot run into the body.
   */
  lemma CleanJsonUnwrapsFence(tag: seq<char>, ws1: seq<char>, body: seq<char>, ws2: seq<char>)
    requires forall i | 0 <= i < |tag| :: IsWordChar(tag[i])
    requires AllSpace(ws1) && AllSpace(ws2)
    requires body != [] && Trimmed(body)
    requires ws1 != [] || !IsWordChar(body[0])
    ensures CleanJsonString(Fence + tag + ws1 + body + ws2 + Fence) == body
  {
    var u := body + ws2 + Fence;
    assert u[0] == body[0] && u[|u| - 1] == '`' && !IsSpace('`');
    WrappedRegroup(tag, ws1, body, ws2);
    CleanJsonOfWrapped(tag, ws1, u);
    ClosingOfWrapped(body, ws2);
  }

  /** A reply made of an opening fence, its tag, whitespace and `u` cleans to `u` without its closing fence. */
  lemma CleanJsonOfWrapped(tag: seq<char>, ws1: seq<char>, u: seq<char>)
    requires forall i | 0 <= i < |tag| :: IsWordChar(tag[i])
    requires AllSpace(ws1)
    requires u != [] && !IsSpace(u[0]) && !IsSpace(u[|u| - 1])
    requires ws1 != [] || !IsWordChar(u[0])
    ensures CleanJsonString(Fence + (tag + (ws1 + u))) == DropClosingFence(u)
  {
    OpeningOfWrapped(tag, ws1, u);
    CleanJsonOfFenced(Fence + (tag + (ws1 + u)), 3 + |tag| + |ws1|, u);
  }

  lemma WrappedRegroup(tag: seq<char>, ws1: seq<char>, body: seq<char>, ws2: seq<char>)
    ensures Fence + tag + ws1 + body + ws2 + Fence == Fence + (tag + (ws1 + (body + ws2 + Fence)))
  {
  }

  /** A trimmed reply that starts with a fence is cut after its opening fence and before its closing one. */
  lemma CleanJsonOfFenced(t: seq<char>, m: nat, u: seq<char>)
    requires StartsWithFence(t) && !IsSpace(t[|t| - 1])
    requires m == OpeningFenceEnd(t) && u == t[m..]
    ensures CleanJsonString(t) == DropClosingFence(u)
  {
    assert Trimmed(t);
    StripTrimmed(t);
  }

  lemma OpeningOfWrapped(tag: seq<char>, ws1: seq<char>, u: seq<char>)
    requires forall i | 0 <= i < |tag| :: IsWordChar(tag[i])
    requires AllSpace(ws1)
    requires u != [] && !IsSpace(u[0]) && !IsSpace(u[|u| - 1])
    requires ws1 != [] || !IsWordChar(u[0])
    ensures var t := Fence + (tag + (ws1 + u));
      StartsWithFence(t) && !IsSpace(t[|t| - 1])
      && OpeningFenceEnd(t) == 3 + |tag| + |ws1| && t[3 + |tag| + |ws1|..] == u
  {
    var t := Fence + (tag + (ws1 + u));
    assert t[..3] == Fence;
    assert t[3..] == tag + (ws1 + u);
    assert (ws1 + u)[0] == if ws1 == [] then u[0] else ws1[0];
    LeadingWordCharsOfPrefixed(tag, ws1 + u);
    assert TagEnd(t) == 3 + |tag|;
    assert t[3 + |tag|..] == ws1 + u;
    LeadingSpacesOfPadded(ws1, u);
    assert t[3 + |tag| + |ws1|..] == u;
  }

  lemma ClosingOfWrapped(body: seq<char>, ws2: seq<char>)
    requires AllSpace(ws2)
    requires body != [] && Trimmed(body)
    ensures DropClosingFence(body + ws2 + Fence) == body
  {
    var u := body + ws2 + Fence;
    assert u[|u| - 3..] == Fence;
    assert u[..|u| - 3] == body + ws2;
    TrailingStartOfPadded(body, ws2);
    assert u[..|body|] == body;
  }

  /** Whitespace around a reply does not change what it cleans to. */
  lemma CleanJsonIgnoresPadding(w1: seq<char>, t: seq<char>, w2: seq<char>)
    requires AllSpace(w1) && AllSpace(w2)
    ensures CleanJsonString(w1 + t + w2) == CleanJsonString(t)
  {
    StripIgnoresPadding(w1, t, w2);
  }

  /**
   * A fenced reply padded with whitespace on the outside, as language models send
   * it, cleans to its body.
   */
  lemma CleanJsonPaddedReply(w0: seq<char>, tag: seq<char>, ws1: seq<char>, body: seq<char>, ws2: seq<char>, w3: seq<char>)
    requires forall i | 0 <= i < |tag| :: IsWordChar(tag[i])
    requires AllSpace(w0) && AllSpace(ws1) && AllSpace(ws2) && AllSpace(w3)
    requires body != [] && Trimmed(body)
    requires ws1 != [] || !IsWordChar(body[0])
    ensures CleanJsonString(w0 + (Fence + tag + ws1 + body + ws2 + Fence) + w3) == body
  {
    CleanJsonIgnoresPadding(w0, Fence + tag + ws1 + body + ws2 + Fence, w3);
    CleanJsonUnwrapsFence(tag, ws1, body, ws2);
  }

  /** An opening fence without a closing one: only the fence, its tag and the whitespace after it go. */
  lemma CleanJsonUnclosedFence(tag: seq<char>, ws1: seq<char>, body: seq<char>)
    requires forall i | 0 <= i < |tag| :: IsWordChar(tag[i])
    requires AllSpace(ws1)
    requires body != [] && Trimmed(body) && !EndsWithFence(body)
    requires ws1 != [] || !IsWordChar(body[0])
    ensures CleanJsonString(Fence + tag + ws1 + body) == body
  {
    assert Fence + tag + ws1 + body == Fence + (tag + (ws1 + body));
    CleanJsonOfWrapped(tag, ws1, body);
  }

  /** A worked example: "```json {1}" cleans to "{1}". */
  lemma CleanJsonUnclosedExample(reply: seq<char>)
    requires reply == "```json {1}"
    ensures CleanJsonString(reply) == "{1}"
  {
    var tag, ws1, body := "json", " ", "{1}";
    assert reply == Fence + tag + ws1 + body;
    CleanJsonUnclosedFence(tag, ws1, body);
  }

  /** A worked example: "```json\n{}\n```\n" cleans to "{}". */
  lemma CleanJsonNewlineExample(reply: seq<char>)
    requires reply == "```json\n{}\n```\n"
    ensures CleanJsonString(reply) == "{}"
  {
    var tag, ws, body := "json", "\n", "{}";
    assert reply == [] + (Fence + tag + ws + body + ws + Fence) + ws;
    CleanJsonPaddedReply([], tag, ws, body, ws, ws);
  }

  /** A bare fence cleans to the empty string. */
  lemma CleanJsonBareFence(reply: seq<char>)
    requires reply == "```"
    ensures CleanJsonString(reply) == ""
  {
    StripTrimmed(reply);
    assert OpeningFenceEnd(reply) == 3;
  }
}
