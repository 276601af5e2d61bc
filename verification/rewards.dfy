/** Credits, tiers, redeeming and badges of app/rewards/page.js and the rewards card of app/page.js. */
module Rewards {
  import opened Commutes

  datatype Tier = Rookie | Advocate | Leader | Champion

  /** Position of a tier on the ladder, lowest first. */
  function Rank(t: Tier): nat {
    match t
    case Rookie => 0
    case Advocate => 1
    case Leader => 2
    case Champion => 3
  }

  /** The tier for a credit balance: above 200, 120 and 60 credits respectively. */
  function Level(credits: int): (t: Tier)
    ensures t == Champion <==> credits > 200
    ensures t == Leader <==> 120 < credits <= 200
    ensures t == Advocate <==> 60 < credits <= 120
    ensures t == Rookie <==> credits <= 60
  {
    if credits > 200 then Champion
    else if credits > 120 then Leader
    else if credits > 60 then Advocate
    else Rookie
  }

  /** More credits never mean a lower tier. */
  lemma LevelMonotone(c1: int, c2: int)
    requires c1 <= c2
    ensures Rank(Level(c1)) <= Rank(Level(c2))
  {
  }

  datatype Redemption = EarnMore | Unlocked

  /** Redeeming is refused below 50 credits and unlocks a reward otherwise. */
  function Redeem(credits: int): (r: Redemption)
    ensures r == EarnMore <==> credits < 50
    ensures r == Unlocked <==> credits >= 50
  {
    if credits < 50 then EarnMore else Unlocked
  }

  datatype Badges = Badges(first25: bool, bikeFriendly: bool, lowCarbon: bool, leaderTier: bool)

  /** The four badge chips for a log. */
  function BadgesFor(log: seq<Entry>): (b: Badges)
    ensures b.first25 <==> Credits(log) >= 25
    ensures b.bikeFriendly <==> exists i :: 0 <= i < |log| && log[i].mode == "bike"
    ensures b.lowCarbon <==> Credits(log) >= 80
    ensures b.leaderTier <==> Credits(log) > 120
  {
    var credits := Credits(log);
    var level := Level(credits);
    Badges(credits >= 25, exists e | e in log :: e.mode == "bike", credits >= 80, level == Leader || level == Champion)
  }

  /** The credit badges form a ladder, with redeeming between the first and the low-carbon badge. */
  lemma BadgeLadder(log: seq<Entry>)
    ensures BadgesFor(log).leaderTier ==> BadgesFor(log).lowCarbon
    ensures BadgesFor(log).lowCarbon ==> BadgesFor(log).first25
    ensures BadgesFor(log).lowCarbon ==> Redeem(Credits(log)) == Unlocked
    ensures Redeem(Credits(log)) == Unlocked ==> BadgesFor(log).first25
  {
  }

  /** Logging a commute never locks a badge or lowers the tier. */
  lemma AddCommuteKeepsBadges(log: seq<Entry>, mode: string, distance: real)
    ensures var before, after := BadgesFor(log), BadgesFor(AddCommute(log, mode, distance));
      (before.first25 ==> after.first25) && (before.bikeFriendly ==> after.bikeFriendly)
      && (before.lowCarbon ==> after.lowCarbon) && (before.leaderTier ==> after.leaderTier)
    ensures Rank(Level(Credits(log))) <= Rank(Level(Credits(AddCommute(log, mode, distance))))
  {
    var r := AddCommute(log, mode, distance);
    AddCommuteNeverLowersCredits(log, mode, distance);
    LevelMonotone(Credits(log), Credits(r));
    if BadgesFor(log).bikeFriendly {
      var i :| 0 <= i < |log| && log[i].mode == "bike";
      assert r[i] == log[i];
    }
  }

  /** Logging a bike commute unlocks the bike badge. */
  lemma BikeCommuteUnlocksBadge(log: seq<Entry>, distance: real)
    ensures BadgesFor(AddCommute(log, "bike", distance)).bikeFriendly
  {
    var r := AddCommute(log, "bike", distance);
    assert r[|log|].mode == "bike";
  }
}
