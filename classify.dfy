/** `classify` and `legend`: the charger type of a station from its model text, and the
    label the map's legend shows for it. */
module Classify {
  import opened Wrappers
  import opened Text

  const GATEWAY: string := "Gateway (Not a Charger)"
  const LEVEL_3: string := "Level 3"
  const LEVEL_2: string := "Level 2"
  const UNKNOWN: string := "Unknown"

  /** Model keywords of DC fast chargers. */
  const L3: seq<string> := ["CPE250", "CPE200", "EXPRESS", "EXPRESS 200", "EXPRESS 250", "DCFC",
                            "TRITIUM", "PK350", "ABB", "BTC", "RTM", "HPC"]

  /** Model keywords of Level 2 chargers. */
  const L2: seq<string> := ["CT4020", "CT4025", "CT4000", "CT4010", "CT4011", "CT500", "CT600",
                            "CT-4000", "CPF25", "CPF50", "CPF32", "CT4010-HD2", "CT2000", "WALLBOX"]

  /** `any(x in m for x in kws)` */
  predicate AnyIn(m: string, kws: seq<string>) {
    if kws == [] then false else Contains(m, kws[0]) || AnyIn(m, kws[1..])
  }

  /** `classify(model)`: ordered keyword tests on the upper-cased model text; a missing
      model reads as the empty text. */
  function Classify(model: Option<string>): string {
    var m := Upper(model.GetOr(""));
    if Contains(m, "GW") && !AnyIn(m, L2 + L3) then GATEWAY
    else if AnyIn(m, L3) || Contains(m, "LEVEL 3") || Contains(m, "DC FAST") || Contains(m, "FAST") then LEVEL_3
    else if AnyIn(m, L2) || Contains(m, "LEVEL 2") || Contains(m, " L2") then LEVEL_2
    else UNKNOWN
  }

  // ---------------------------------------------------------------- keyword lists

  /** The scan over a list finds a keyword exactly when some listed keyword occurs. */
  lemma {:induction false} AnyInSpec(m: string, kws: seq<string>)
    ensures AnyIn(m, kws) <==> exists i :: 0 <= i < |kws| && Contains(m, kws[i])
  {
    if kws != [] {
      AnyInSpec(m, kws[1..]);
      assert forall i :: 1 <= i < |kws| ==> kws[i] == kws[1..][i - 1];
    }
  }

  /** Scanning `l2 + l3` is scanning `l2`, then `l3`. */
  lemma {:induction false} AnyInAppend(m: string, a: seq<string>, b: seq<string>)
    ensures AnyIn(m, a + b) <==> AnyIn(m, a) || AnyIn(m, b)
  {
    if a != [] {
      assert (a + b)[1..] == a[1..] + b;
      AnyInAppend(m, a[1..], b);
    } else {
      assert a + b == b;
    }
  }

  // ---------------------------------------------------------------- classify

  /** The result is always one of the four labels. */
  lemma ClassifyLabels(model: Option<string>)
    ensures Classify(model) in {GATEWAY, LEVEL_3, LEVEL_2, UNKNOWN}
  {
  }

  /** A station is a gateway when "GW" occurs and no keyword of either list does, whatever
      else the model says, "FAST" included. */
  lemma ClassifyGateway(model: string)
    requires Contains(Upper(model), "GW")
    requires !AnyIn(Upper(model), L2) && !AnyIn(Upper(model), L3)
    ensures Classify(Some(model)) == GATEWAY
  {
    AnyInAppend(Upper(model), L2, L3);
  }

  /** A gateway label means "GW" occurs and no listed keyword does. */
  lemma ClassifyGatewayOnly(model: Option<string>)
    requires Classify(model) == GATEWAY
    ensures var m := Upper(model.GetOr(""));
      Contains(m, "GW") && forall i :: 0 <= i < |L2 + L3| ==> !Contains(m, (L2 + L3)[i])
  {
    AnyInSpec(Upper(model.GetOr("")), L2 + L3);
  }

  /** An L3 keyword makes the station Level 3 even when an L2 keyword occurs as well; "GW"
      does not turn it into a gateway. */
  lemma ClassifyLevel3BeatsLevel2(model: string)
    requires AnyIn(Upper(model), L3)
    ensures Classify(Some(model)) == LEVEL_3
  {
    AnyInAppend(Upper(model), L2, L3);
  }

  /** Without "GW", the word "FAST" alone makes a station Level 3. */
  lemma ClassifyFast(model: string)
    requires Contains(Upper(model), "FAST") && !Contains(Upper(model), "GW")
    ensures Classify(Some(model)) == LEVEL_3
  {
  }

  /** Level 2 means: no L3 signal at all, an L2 signal, and either an L2 keyword or no
      "GW" (a "GW" model whose only L2 signal is "LEVEL 2" or " L2" is a gateway). */
  lemma ClassifyLevel2(model: Option<string>)
    ensures var m := Upper(model.GetOr(""));
      Classify(model) == LEVEL_2 <==>
        && !AnyIn(m, L3) && !Contains(m, "LEVEL 3") && !Contains(m, "DC FAST") && !Contains(m, "FAST")
        && (AnyIn(m, L2) || Contains(m, "LEVEL 2") || Contains(m, " L2"))
        && (AnyIn(m, L2) || !Contains(m, "GW"))
  {
    AnyInAppend(Upper(model.GetOr("")), L2, L3);
  }

  /** Gateway exactly when "GW" occurs and no keyword of either list does. */
  lemma ClassifyGatewayIff(model: Option<string>)
    ensures var m := Upper(model.GetOr(""));
      Classify(model) == GATEWAY <==> Contains(m, "GW") && !AnyIn(m, L2) && !AnyIn(m, L3)
  {
    AnyInAppend(Upper(model.GetOr("")), L2, L3);
  }

  /** Level 3 exactly when the model is no gateway and an L3 keyword, "LEVEL 3", "DC FAST"
      or "FAST" occurs. */
  lemma ClassifyLevel3(model: Option<string>)
    ensures var m := Upper(model.GetOr(""));
      Classify(model) == LEVEL_3 <==>
        && !(Contains(m, "GW") && !AnyIn(m, L2) && !AnyIn(m, L3))
        && (AnyIn(m, L3) || Contains(m, "LEVEL 3") || Contains(m, "DC FAST") || Contains(m, "FAST"))
  {
    AnyInAppend(Upper(model.GetOr("")), L2, L3);
  }

  /** Unknown exactly when the model is no gateway and neither a Level 3 nor a Level 2 signal
      occurs. */
  lemma ClassifyUnknown(model: Option<string>)
    ensures var m := Upper(model.GetOr(""));
      Classify(model) == UNKNOWN <==>
        && !(Contains(m, "GW") && !AnyIn(m, L2) && !AnyIn(m, L3))
        && !AnyIn(m, L3) && !Contains(m, "LEVEL 3") && !Contains(m, "DC FAST") && !Contains(m, "FAST")
        && !AnyIn(m, L2) && !Contains(m, "LEVEL 2") && !Contains(m, " L2")
  {
    AnyInAppend(Upper(model.GetOr("")), L2, L3);
  }

  /** The test is case-insensitive. */
  lemma ClassifyIgnoresCase(model: string)
    ensures Classify(Some(Lower(model))) == Classify(Some(model))
    ensures Classify(Some(Upper(model))) == Classify(Some(model))
  {
    UpperOfLower(model);
    UpperIdempotent(model);
  }

  /** No keyword occurs in the empty text, so a missing model is an unknown charger. */
  lemma ClassifyMissing()
    ensures Classify(None) == UNKNOWN
  {
    var m := Upper(None.GetOr(""));
    assert m == "";
    KeywordsNotShort();
    NothingInEmpty(L3);
    NothingInEmpty(L2);
    AnyInAppend("", L2, L3);
    assert !Contains(m, "GW") && !Contains(m, "LEVEL 3") && !Contains(m, "DC FAST") && !Contains(m, "FAST");
    assert !Contains(m, "LEVEL 2") && !Contains(m, " L2");
  }

  lemma KeywordsNotShort()
    ensures forall i :: 0 <= i < |L3| ==> |L3[i]| >= 3
    ensures forall i :: 0 <= i < |L2| ==> |L2[i]| >= 3
  {
  }

  lemma {:induction false} NothingInEmpty(kws: seq<string>)
    requires forall i :: 0 <= i < |kws| ==> |kws[i]| >= 3
    ensures !AnyIn("", kws)
  {
    if kws != [] {
      NothingInEmpty(kws[1..]);
    }
  }

  // ---------------------------------------------------------------- legend

  /** A word character for `\b`: an ASCII letter, digit or underscore. */
  predicate IsWord(c: char) {
    'a' <= c <= 'z' || 'A' <= c <= 'Z' || '0' <= c <= '9' || c == '_'
  }

  /** `pat` (which starts and ends with a word character) matches `s` at `i`, ignoring case
      and with a word boundary on both sides. */
  predicate WordAt(s: string, pat: string, i: nat) {
    && i + |pat| <= |s|
    && Lower(s[i..i + |pat|]) == Lower(pat)
    && (i == 0 || !IsWord(s[i - 1]))
    && (i + |pat| == |s| || !IsWord(s[i + |pat|]))
  }

  /** The scan of `re.search` from position `i` on. */
  predicate SearchFrom(s: string, pat: string, i: nat)
    decreases |s| - i
  {
    if i + |pat| > |s| then false else WordAt(s, pat, i) || SearchFrom(s, pat, i + 1)
  }

  /** `bool(re.search(r"\b" + pat + r"\b", s, flags=re.IGNORECASE))` */
  predicate Matches(s: string, pat: string) {
    SearchFrom(s, pat, 0)
  }

  lemma {:induction false} SearchFromSpec(s: string, pat: string, i: nat)
    ensures SearchFrom(s, pat, i) <==> exists j: nat :: i <= j && WordAt(s, pat, j)
    decreases |s| - i
  {
    if i + |pat| <= |s| {
      SearchFromSpec(s, pat, i + 1);
      if !WordAt(s, pat, i) && !SearchFrom(s, pat, i + 1) {
        forall j: nat | i <= j
          ensures !WordAt(s, pat, j)
        {
          if j > i {
          }
        }
      }
    }
  }

  /** The search succeeds exactly when the pattern occurs bounded by non-word characters. */
  lemma MatchesSpec(s: string, pat: string)
    ensures Matches(s, pat) <==> exists j: nat :: WordAt(s, pat, j)
  {
    SearchFromSpec(s, pat, 0);
  }

  const PUBLIC: string := "Public Stations"
  const SOLAR: string := "Solar Stations"

  /** `legend(base, sg)`: no label for gateways; otherwise the charger type followed by the
      suffixes the station group earns. */
  function Legend(base: string, sg: string): Option<string> {
    var isPublic := Matches(sg, PUBLIC);
    var isSolar := Matches(sg, SOLAR);
    if |base| > 0 && "Gateway" <= base then None else Some(base + Suffixes(isPublic, isSolar))
  }

  /** What a label adds after the charger type. */
  function Suffixes(isPublic: bool, isSolar: bool): string {
    (if isPublic then " - Public Stations" else "") + (if isSolar then " - Solar" else "")
  }

  /** The public suffix comes first exactly when it was earned, the solar one last exactly
      when it was earned, and the four combinations give four different texts. */
  lemma SuffixesSpec(isPublic: bool, isSolar: bool)
    ensures " - Public Stations" <= Suffixes(isPublic, isSolar) <==> isPublic
    ensures EndsWith(Suffixes(isPublic, isSolar), " - Solar") <==> isSolar
    ensures !isPublic && !isSolar ==> Suffixes(isPublic, isSolar) == ""
    ensures isPublic && !isSolar ==> Suffixes(isPublic, isSolar) == " - Public Stations"
    ensures !isPublic && isSolar ==> Suffixes(isPublic, isSolar) == " - Solar"
    ensures isPublic && isSolar ==> Suffixes(isPublic, isSolar) == " - Public Stations - Solar"
  {
    var tail := Suffixes(isPublic, isSolar);
    if isSolar {
      assert tail[|tail| - 8..] == " - Solar";
    } else if isPublic {
      assert tail[|tail| - 8] == 'S';
    }
    if !isPublic && isSolar {
      assert tail[3] == 'S';
    }
  }

  /** There is no label exactly for a type that starts with "Gateway"; otherwise the label
      is the type, then " - Public Stations" exactly when that group name occurs as a word,
      then " - Solar" exactly when "Solar Stations" does. */
  lemma LegendSpec(base: string, sg: string)
    ensures Legend(base, sg).None? <==> "Gateway" <= base
    ensures !("Gateway" <= base) ==>
      Legend(base, sg) == Some(base
        + (if exists j: nat :: WordAt(sg, PUBLIC, j) then " - Public Stations" else "")
        + (if exists j: nat :: WordAt(sg, SOLAR, j) then " - Solar" else ""))
    ensures Legend(base, sg).Some? ==>
      var shown := Legend(base, sg).value;
      && base <= shown
      && (" - Public Stations" <= shown[|base|..] <==> exists j: nat :: WordAt(sg, PUBLIC, j))
      && (EndsWith(shown[|base|..], " - Solar") <==> exists j: nat :: WordAt(sg, SOLAR, j))
  {
    MatchesSpec(sg, PUBLIC);
    MatchesSpec(sg, SOLAR);
    if Legend(base, sg).Some? {
      var tail := Suffixes(Matches(sg, PUBLIC), Matches(sg, SOLAR));
      assert Legend(base, sg).value == base + tail;
      assert (base + tail)[|base|..] == tail;
      SuffixesSpec(Matches(sg, PUBLIC), Matches(sg, SOLAR));
      var pub := if Matches(sg, PUBLIC) then " - Public Stations" else "";
      var sol := if Matches(sg, SOLAR) then " - Solar" else "";
      assert base + tail == base + pub + sol;
    }
  }

  predicate EndsWith(s: string, suffix: string) {
    |suffix| <= |s| && s[|s| - |suffix|..] == suffix
  }

  /** Every charger type the classifier produces other than the gateway gets a label. */
  lemma LegendOfCharger(model: Option<string>, sg: string)
    requires Classify(model) != GATEWAY
    ensures Legend(Classify(model), sg).Some?
  {
    var base := Classify(model);
    ClassifyLabels(model);
    assert base == LEVEL_3 || base == LEVEL_2 || base == UNKNOWN;
    assert base[0] != 'G';
  }
}
