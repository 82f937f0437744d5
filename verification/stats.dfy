/**
 * The contributor's standing (pages/stats.tsx): whether the user has
 * submitted anything, and the rank, title and crown shown for it.
 */
module Stats {
  import opened Wrappers

  /** `count ?? 0`: a missing count reads as none. */
  function CountOrZero(count: Option<nat>): (r: nat)
    ensures count.None? ==> r == 0
    ensures count.Some? ==> r == count.value
  {
    count.GetOr(0)
  }

  /** The user has contributed when any of their records is approved or awaiting approval. */
  predicate HasContributed(approved: Option<nat>, unverified: Option<nat>) {
    CountOrZero(approved) + CountOrZero(unverified) > 0
  }

  /** A contributor has a record in one of the two places. */
  lemma ContributedIffSomeRecord(approved: Option<nat>, unverified: Option<nat>)
    ensures HasContributed(approved, unverified) <==>
      (approved.Some? && approved.value > 0) || (unverified.Some? && unverified.value > 0)
  {
  }

  /** The three ranks: administrators first, then contributors, then everyone else. */
  datatype Rank = Owner | Detective | Tourist

  function RankOf(isAdmin: bool, contributed: bool): (r: Rank)
    ensures r == Owner <==> isAdmin
    ensures r == Detective <==> !isAdmin && contributed
  {
    if isAdmin then Owner else if contributed then Detective else Tourist
  }

  /** The title shown for a rank. */
  function Title(r: Rank): string {
    match r
    case Owner => "Володар інвентарів"
    case Detective => "Інвентарний детектив"
    case Tourist => "Архівний турист"
  }

  /** The crown image shown for a rank. */
  function Icon(r: Rank): string {
    match r
    case Owner => "/images/crown-admin.svg"
    case Detective => "/images/crown-researcher.svg"
    case Tourist => "/images/crown-user.svg"
  }

  /**
   * The title and the crown follow the same rank: each determines the rank,
   * so the page never shows a title with another rank's crown.
   */
  lemma TitleAndIconAgree(r: Rank, s: Rank)
    ensures Title(r) == Title(s) <==> r == s
    ensures Icon(r) == Icon(s) <==> r == s
  {
    if r != s {
      assert Title(r)[0] != Title(s)[0] || |Title(r)| != |Title(s)|;
      assert |Icon(r)| != |Icon(s)|;
    }
  }

  /** An administrator is shown as the owner whatever they contributed. */
  lemma AdminOutranksContribution(contributed: bool)
    ensures Title(RankOf(true, contributed)) == "Володар інвентарів"
    ensures Icon(RankOf(true, contributed)) == "/images/crown-admin.svg"
  {
  }
}
