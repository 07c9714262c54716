/** Which accounts may be named, and how. The regular expressions are arbitrary predicates on text. */
module Policy {
  import opened Base

  datatype Patterns = Patterns(
    isBotName: string -> bool,
    isBotGroup: string -> bool,
    isSanctionReason: string -> bool,
    isCourtesyReason: string -> bool,
    deniesCourtesy: string -> bool,
    isPlaceholderName: string -> bool)

  datatype ResolvedUser = ResolvedUser(userId: int, username: string, groups: seq<string>, missing: bool)

  /** `should_highlight_contributor`; `globalGroups` is what CentralAuth would answer, when it is asked. */
  predicate ShouldHighlight(p: Patterns, user: ResolvedUser, globalGroups: Option<string -> seq<string>>) {
    && !user.missing && !("~" <= user.username)
    && (forall g :: g in user.groups ==> !p.isBotGroup(g))
    && !p.isBotName(user.username)
    && (globalGroups.Some? ==> forall g :: g in globalGroups.value(user.username) ==> !p.isBotGroup(g))
  }

  datatype AccountStanding = AccountStanding(
    userId: int,
    username: string,
    blockedAt: Option<int>,
    blockExpiresAt: Option<int>,
    blockPartial: bool,
    blockReason: Option<string>,
    globallyLocked: bool,
    lockReason: Option<string>)

  predicate IsSanctionLock(p: Patterns, s: AccountStanding) {
    s.globallyLocked && s.lockReason.Some? && s.lockReason.value != "" && p.isSanctionReason(s.lockReason.value)
  }

  predicate IsCourtesyBlock(p: Patterns, s: AccountStanding) {
    && s.blockReason.Some? && s.blockReason.value != ""
    && !p.deniesCourtesy(s.blockReason.value)
    && p.isCourtesyReason(s.blockReason.value)
  }

  predicate IsNameable(p: Patterns, standing: Option<AccountStanding>, maxVisibleBlock: int, now: int) {
    if standing.None? then true
    else
      var s := standing.value;
      if IsSanctionLock(p, s) then false
      else if s.blockedAt.None? then true
      else if s.blockPartial then true
      else if IsCourtesyBlock(p, s) then true
      else if s.blockExpiresAt.None? then false
      else if s.blockExpiresAt.value <= now then true
      else s.blockExpiresAt.value - s.blockedAt.value <= maxVisibleBlock
  }

  /** A block somebody asked for, or one that followed a theft: its reason says so and nothing denies it. */
  predicate SaysCourtesy(p: Patterns, reason: Option<string>) {
    reason.Some? && reason.value != "" && p.isCourtesyReason(reason.value) && !p.deniesCourtesy(reason.value)
  }

  /** Lasting exclusion, in the standing's own fields: locked as a sanction, or blocked on the whole wiki, not as a
      courtesy, for ever or for longer than the threshold with the block still running. */
  predicate IsExcluded(p: Patterns, s: AccountStanding, maxVisibleBlock: int, now: int) {
    || (s.globallyLocked && s.lockReason.Some? && s.lockReason.value != "" && p.isSanctionReason(s.lockReason.value))
    || (s.blockedAt.Some? && !s.blockPartial && !SaysCourtesy(p, s.blockReason)
        && (s.blockExpiresAt.None?
            || (s.blockExpiresAt.value > now && s.blockExpiresAt.value > s.blockedAt.value + maxVisibleBlock)))
  }

  /** The ladder of `is_nameable_account` withholds exactly the excluded; an account nobody looked at is nameable. */
  lemma NameableUnlessExcluded(p: Patterns, standing: Option<AccountStanding>, maxVisibleBlock: int, now: int)
    ensures IsNameable(p, standing, maxVisibleBlock, now) <==>
      standing.None? || !IsExcluded(p, standing.value, maxVisibleBlock, now)
  {
  }

  /** Policy values and display values share one vocabulary; `Hide` is never a display value. */
  datatype Display = Link | Unlink | Label | Hide

  datatype DisplayPolicy = DisplayPolicy(showNames: bool, sanctioned: Display, anonymised: Display)

  /** `contributor_display`: how one account appears, or `None` when it does not. */
  function ContributorDisplay(p: Patterns, username: string, standing: Option<AccountStanding>,
                              hasUserPage: Option<bool>, policy: DisplayPolicy, maxVisibleBlock: int, now: int)
    : Option<Display>
  {
    var chosen :=
      if standing.Some? && !IsNameable(p, standing, maxVisibleBlock, now) then policy.sanctioned
      else if p.isPlaceholderName(username) then policy.anonymised
      else Link;
    match chosen
    case Hide => None
    case Label => Some(Label)
    case Unlink => Some(Unlink)
    case Link => Some(if hasUserPage == Some(false) then Unlink else Link)
  }

  /** Nameability is never lost as the threshold or the clock grows. */
  lemma NameableGrows(p: Patterns, standing: Option<AccountStanding>, max1: int, max2: int, now1: int, now2: int)
    requires max1 <= max2 && now1 <= now2 && IsNameable(p, standing, max1, now1)
    ensures IsNameable(p, standing, max2, now2)
  {
  }
}
