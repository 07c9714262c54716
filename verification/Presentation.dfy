/** What a ready answer shows: the stored names under the wiki's policy, with the total conserved. */
module Presentation {
  import opened Base
  import opened Policy
  import opened Standing
  import opened Results
  import Workers

  /** Everything the serve path looks up: the standing table, the policy, the threshold and the clock. */
  datatype View = View(patterns: Patterns, facts: Standings, policy: DisplayPolicy, maxVisibleBlock: int, now: int)

  datatype Presented = Presented(contributor: Contributor, display: Display)

  datatype Fields = Fields(contributors: seq<Presented>, distinct: int, others: int, optedOut: bool)

  /** The operator's switch off means naming sanctioned accounts like any other. */
  function EffectivePolicy(policy: DisplayPolicy, hideSanctioned: bool): DisplayPolicy {
    if hideSanctioned then policy else policy.(sanctioned := Link)
  }

  function DisplayOf(v: View, c: Contributor): Option<Display> {
    var known := if c.userId >= 0 then Lookup(v.facts, c.userId) else None;
    ContributorDisplay(
      v.patterns, c.username,
      if known.Some? then Some(known.value.standing) else None,
      if known.Some? then known.value.hasUserPage else None,
      v.policy, v.maxVisibleBlock, v.now)
  }

  function Shown(v: View, stored: seq<Contributor>): seq<Presented> {
    if stored == [] then []
    else
      var n := |stored| - 1;
      var display := DisplayOf(v, stored[n]);
      Shown(v, stored[..n]) + if display.Some? then [Presented(stored[n], display.value)] else []
  }

  method PresentedContributors(v: View, stored: seq<Contributor>) returns (presented: seq<Presented>)
    ensures presented == Shown(v, stored)
  {
    presented := [];
    for i := 0 to |stored|
      invariant presented == Shown(v, stored[..i])
    {
      assert stored[..i + 1][..i] == stored[..i];
      var display := DisplayOf(v, stored[i]);
      if display.Some? {
        presented := presented + [Presented(stored[i], display.value)];
      }
    }
    assert stored[..|stored|] == stored;
  }

  function AttributionFields(v: View, optedOut: bool, stored: seq<Contributor>, distinct: int): Fields {
    var shown := if optedOut || !v.policy.showNames then [] else Shown(v, stored);
    Fields(shown, distinct, Max(0, distinct - |shown|), optedOut)
  }

  /* ---- What is shown ---- */

  function Names(shown: seq<Presented>): seq<Contributor> {
    seq(|shown|, i requires 0 <= i < |shown| => shown[i].contributor)
  }

  /** `part` is `whole` with some elements left out, in the same order. */
  ghost predicate IsSubsequence<T>(part: seq<T>, whole: seq<T>)
    decreases |whole|
  {
    part == [] ||
    (whole != [] &&
     (IsSubsequence(part, whole[..|whole| - 1])
      || (part[|part| - 1] == whole[|whole| - 1] && IsSubsequence(part[..|part| - 1], whole[..|whole| - 1]))))
  }

  lemma {:induction false} SubsequenceNoLonger<T>(part: seq<T>, whole: seq<T>)
    requires IsSubsequence(part, whole)
    ensures |part| <= |whole|
    decreases |whole|
  {
    if part != [] {
      if IsSubsequence(part, whole[..|whole| - 1]) {
        SubsequenceNoLonger(part, whole[..|whole| - 1]);
      } else {
        SubsequenceNoLonger(part[..|part| - 1], whole[..|whole| - 1]);
      }
    }
  }

  /** `w` names everybody that `v` names. */
  ghost predicate NamesAtLeast(v: View, w: View, stored: seq<Contributor>) {
    forall c :: c in stored && DisplayOf(v, c).Some? ==> DisplayOf(w, c).Some?
  }

  /** One more stored contributor is one more name shown, or none. */
  lemma ShownOne(v: View, stored: seq<Contributor>, c: Contributor, named: bool)
    requires named == DisplayOf(v, c).Some?
    ensures Names(Shown(v, stored + [c])) == Names(Shown(v, stored)) + if named then [c] else []
  {
    assert (stored + [c])[..|stored|] == stored;
  }

  lemma SubsequenceOne<T>(part: seq<T>, whole: seq<T>, x: T, inPart: bool, inWhole: bool)
    requires IsSubsequence(part, whole) && (inPart ==> inWhole)
    ensures IsSubsequence(part + (if inPart then [x] else []), whole + if inWhole then [x] else [])
  {
    assert part + [] == part && whole + [] == whole;
    assert (part + [x])[..|part|] == part && (whole + [x])[..|whole|] == whole;
  }

  /** The shown names are a subsequence of the stored ones: exactly those the policy does not hide. */
  lemma {:induction false} ShownIsSubsequence(v: View, stored: seq<Contributor>)
    ensures IsSubsequence(Names(Shown(v, stored)), stored)
    ensures forall c :: c in Names(Shown(v, stored)) <==> c in stored && DisplayOf(v, c).Some?
  {
    if stored != [] {
      var n := |stored| - 1;
      var last, named := stored[n], DisplayOf(v, stored[n]).Some?;
      assert stored == stored[..n] + [last];
      ShownIsSubsequence(v, stored[..n]);
      ShownOne(v, stored[..n], last, named);
      SubsequenceOne(Names(Shown(v, stored[..n])), stored[..n], last, named, true);
    }
  }

  /** A view that names at least as many keeps every name shown, in order. */
  lemma {:induction false} MoreIsShown(v: View, w: View, stored: seq<Contributor>)
    requires NamesAtLeast(v, w, stored)
    ensures IsSubsequence(Names(Shown(v, stored)), Names(Shown(w, stored)))
  {
    if stored != [] {
      var n := |stored| - 1;
      var last, inV, inW := stored[n], DisplayOf(v, stored[n]).Some?, DisplayOf(w, stored[n]).Some?;
      assert last in stored && forall c :: c in stored[..n] ==> c in stored;
      assert stored == stored[..n] + [last];
      MoreIsShown(v, w, stored[..n]);
      ShownOne(v, stored[..n], last, inV);
      ShownOne(w, stored[..n], last, inW);
      SubsequenceOne(Names(Shown(v, stored[..n])), Names(Shown(w, stored[..n])), last, inV, inW);
    }
  }

  /** What the wiki wants for the account: its rule for sanctioned accounts if the account is excluded, its rule for
      anonymised ones if the name is a placeholder, and a link otherwise. */
  function Chosen(v: View, c: Contributor): Display {
    if c.userId >= 0 && c.userId in v.facts && IsExcluded(v.patterns, v.facts[c.userId].standing, v.maxVisibleBlock, v.now)
    then v.policy.sanctioned
    else if v.patterns.isPlaceholderName(c.username) then v.policy.anonymised
    else Link
  }

  /** Who is named, and how, in the fields of the standing: a stored name is left out exactly when what the wiki wants is to
      hide it. A label stays a label; a link needs a user page that is not known to be missing. */
  lemma NamedExactly(v: View, stored: seq<Contributor>, c: Contributor)
    ensures c in Names(Shown(v, stored)) <==> c in stored && !Chosen(v, c).Hide?
    ensures forall shown :: shown in Shown(v, stored) && shown.contributor == c ==>
      && (shown.display.Label? <==> Chosen(v, c).Label?)
      && (shown.display.Link? <==>
            Chosen(v, c).Link? && !(c.userId >= 0 && c.userId in v.facts && v.facts[c.userId].hasUserPage == Some(false)))
      && !shown.display.Hide?
  {
    NameableUnlessExcluded(v.patterns, StandingOf(v, c), v.maxVisibleBlock, v.now);
    ShownIsSubsequence(v, stored);
    ShownAsDisplayed(v, stored);
  }

  lemma {:induction false} ShownAsDisplayed(v: View, stored: seq<Contributor>)
    ensures forall shown :: shown in Shown(v, stored) ==> DisplayOf(v, shown.contributor) == Some(shown.display)
  {
    if stored != [] {
      ShownAsDisplayed(v, stored[..|stored| - 1]);
    }
  }

  /** By default sanctioned accounts are hidden and anonymised ones labelled: then exactly the excluded are left out, and
      the total still counts them. */
  lemma DefaultHidesExcluded(v: View, stored: seq<Contributor>, c: Contributor)
    requires v.policy.sanctioned.Hide? && !v.policy.anonymised.Hide?
    ensures c in stored && c !in Names(Shown(v, stored)) <==>
      && c in stored && c.userId >= 0 && c.userId in v.facts
      && IsExcluded(v.patterns, v.facts[c.userId].standing, v.maxVisibleBlock, v.now)
  {
    NamedExactly(v, stored, c);
  }

  /** An article opted out, or a wiki that names nobody, shows no name; every other answer shows exactly the names above. */
  lemma NamesOnlyWhenAllowed(v: View, optedOut: bool, stored: seq<Contributor>, distinct: int, c: Contributor)
    ensures var f := AttributionFields(v, optedOut, stored, distinct);
      && f.optedOut == optedOut && f.distinct == distinct
      && (c in Names(f.contributors) <==> !optedOut && v.policy.showNames && c in stored && !Chosen(v, c).Hide?)
  {
    NamedExactly(v, stored, c);
  }

  /* ---- The total ---- */

  /** Whatever is hidden moves into the others: for every answer the worker stores, every opt-out, standing table, policy
      and switch, the names shown and the others add up to the stored total. */
  lemma TotalIsConserved(c: Workers.WorkerSettings, up: Workers.Upstream, answer: Answer, v: View, optedOut: bool)
    requires Workers.Honest(up) && up.page.Answered? && Workers.Computed(c, up) == Workers.Answered(answer)
    ensures var f := AttributionFields(v, optedOut, answer.contributors, answer.distinctContributors);
      && |f.contributors| + f.others == answer.distinctContributors == f.distinct
      && IsSubsequence(Names(f.contributors), answer.contributors)
  {
    Workers.ComputedCountsEnough(c, up, answer);
    ShownIsSubsequence(v, answer.contributors);
    SubsequenceNoLonger(Names(Shown(v, answer.contributors)), answer.contributors);
  }

  /** Why the worker stores the larger of the two counts: over all policies, the total is conserved for a stored row
      exactly when it counts no fewer contributors than it names. */
  lemma ConservedOnlyWithEnough(v: View, stored: seq<Contributor>, distinct: int)
    requires v.policy.showNames && forall c :: c in stored ==> DisplayOf(v, c).Some?
    ensures var f := AttributionFields(v, false, stored, distinct);
      |f.contributors| + f.others == distinct <==> |stored| <= distinct
  {
    AllAreShown(v, stored);
  }

  lemma {:induction false} AllAreShown(v: View, stored: seq<Contributor>)
    requires forall c :: c in stored ==> DisplayOf(v, c).Some?
    ensures |Shown(v, stored)| == |stored|
  {
    if stored != [] {
      assert stored[|stored| - 1] in stored;
      AllAreShown(v, stored[..|stored| - 1]);
    }
  }

  /* ---- How the names change ---- */

  /** Switching the sanction rule off only adds names. */
  lemma SwitchOnlyAddsNames(v: View, stored: seq<Contributor>, policy: DisplayPolicy)
    requires v.policy == EffectivePolicy(policy, true)
    ensures IsSubsequence(Names(Shown(v, stored)), Names(Shown(v.(policy := EffectivePolicy(policy, false)), stored)))
  {
    MoreIsShown(v, v.(policy := EffectivePolicy(policy, false)), stored);
  }

  /** The standing table with everything the wikis decided left out. */
  function Cleared(facts: Standings): Standings {
    map id | id in facts :: facts[id].(standing := AccountStanding(id, "", None, None, false, None, false, None))
  }

  /** Switched off, the rule shows a sanctioned account like any other, with one exception: an excluded account under a
      placeholder name is linked like a named one, whatever the wiki wants for placeholder names. */
  lemma SwitchIgnoresStanding(v: View, policy: DisplayPolicy, c: Contributor)
    requires v.policy == EffectivePolicy(policy, false)
    ensures DisplayOf(v, c) == DisplayOf(v.(facts := Cleared(v.facts)), c) <==>
      (v.patterns.isPlaceholderName(c.username) && c.userId >= 0 && c.userId in v.facts
       && IsExcluded(v.patterns, v.facts[c.userId].standing, v.maxVisibleBlock, v.now) ==>
         policy.anonymised.Link? || (policy.anonymised.Unlink? && v.facts[c.userId].hasUserPage == Some(false)))
  {
    NameableUnlessExcluded(v.patterns, StandingOf(v, c), v.maxVisibleBlock, v.now);
  }

  function Later(v: View, maxVisibleBlock: int, now: int): View {
    v.(maxVisibleBlock := maxVisibleBlock, now := now)
  }

  function StandingOf(v: View, c: Contributor): Option<AccountStanding> {
    if c.userId >= 0 && c.userId in v.facts then Some(v.facts[c.userId].standing) else None
  }

  /** An account drops out as the threshold or the clock grows exactly when the wiki shows sanctioned accounts but hides
      anonymised ones, and this one has a placeholder name and has just become nameable again. */
  lemma NameIsLostOnlyIf(v: View, maxVisibleBlock: int, now: int, c: Contributor)
    requires v.maxVisibleBlock <= maxVisibleBlock && v.now <= now
    ensures DisplayOf(v, c).Some? && DisplayOf(Later(v, maxVisibleBlock, now), c).None? <==>
      && !v.policy.sanctioned.Hide? && v.policy.anonymised.Hide? && v.patterns.isPlaceholderName(c.username)
      && !IsNameable(v.patterns, StandingOf(v, c), v.maxVisibleBlock, v.now)
      && IsNameable(v.patterns, StandingOf(v, c), maxVisibleBlock, now)
  {
    if IsNameable(v.patterns, StandingOf(v, c), v.maxVisibleBlock, v.now) {
      NameableGrows(v.patterns, StandingOf(v, c), v.maxVisibleBlock, maxVisibleBlock, v.now, now);
    }
  }

  /** So with sanctioned accounts hidden, or anonymised ones not, the names shown only grow with the threshold and the
      clock. */
  lemma ShownGrows(v: View, maxVisibleBlock: int, now: int, stored: seq<Contributor>)
    requires v.maxVisibleBlock <= maxVisibleBlock && v.now <= now
    requires v.policy.sanctioned.Hide? || !v.policy.anonymised.Hide?
    ensures IsSubsequence(Names(Shown(v, stored)), Names(Shown(Later(v, maxVisibleBlock, now), stored)))
  {
    forall c | c in stored && DisplayOf(v, c).Some? ensures DisplayOf(Later(v, maxVisibleBlock, now), c).Some? {
      NameIsLostOnlyIf(v, maxVisibleBlock, now, c);
    }
    MoreIsShown(v, Later(v, maxVisibleBlock, now), stored);
  }
}
