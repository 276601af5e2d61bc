/** The commute log of app/commutes/page.js (and its copy in app/page.js): building an entry
    from a mode and a distance, appending it, and the weekly statistics over the log. */
module Commutes {
  import opened JsSemantics
  import opened Data

  /** One logged commute; emission and savings in kg CO2. */
  datatype Entry = Entry(mode: string, modeLabel: string, distance: real, emission: real, savings: real)

  datatype Stats = Stats(weeklySaved: real, weeklyEmissions: real, goalProgress: int, credits: int)

  /** Factor used for a mode the table does not list. */
  const UnknownCommuteFactor: real := 0.12

  /** Weekly savings goal in kg CO2. */
  const WeeklyGoalKg: real := 12.0

  /** The factor lookup as the source writes it, `commuteEmissionFactors[mode] || 0.12`: the
      zero factors of bike and walk are falsy, so those modes are charged 0.12 kg/km too, and no
      mode at all is free of emissions. This is the lookup the program runs. */
  function CommuteFactorAsWritten(mode: string): (f: real)
    ensures 0.0 < f < CarBaselineKgPerKm
  {
    CommuteFactorsBelowCarBaseline();
    if mode in CommuteEmissionFactors && CommuteEmissionFactors[mode] != 0.0 then CommuteEmissionFactors[mode]
    else UnknownCommuteFactor
  }

  /** The factor lookup as intended: the table's factor for a listed mode, 0.12 otherwise. */
  function CommuteFactor(mode: string): (f: real)
    ensures mode in CommuteEmissionFactors ==> f == CommuteEmissionFactors[mode]
    ensures mode !in CommuteEmissionFactors ==> f == UnknownCommuteFactor
    ensures 0.0 <= f < CarBaselineKgPerKm
  {
    CommuteFactorsBelowCarBaseline();
    if mode in CommuteEmissionFactors then CommuteEmissionFactors[mode] else UnknownCommuteFactor
  }

  /** The two lookups differ exactly on the listed modes whose factor is zero. */
  lemma FactorLookupsDiffer(mode: string)
    ensures CommuteFactorAsWritten(mode) != CommuteFactor(mode)
        <==> mode in CommuteEmissionFactors && CommuteEmissionFactors[mode] == 0.0
  {
  }

  /** `transportFactors[mode]?.label || mode`. Every label is non-empty, so a listed mode shows
      its label and any other mode shows its own key. */
  function ModeLabel(mode: string): (l: string)
    ensures mode in TransportFactors ==> l == TransportFactors[mode].display
    ensures mode !in TransportFactors ==> l == mode
  {
    if mode in TransportFactors && TransportFactors[mode].display != "" then TransportFactors[mode].display
    else mode
  }

  /** An entry for `distance` km charged at `factor` kg/km. Savings are measured against driving
      the same distance and clamped at zero. */
  function EntryFor(mode: string, distance: real, factor: real): (e: Entry)
    ensures e.mode == mode && e.modeLabel == ModeLabel(mode) && e.distance == distance
    ensures e.emission == distance * factor
    ensures e.savings >= 0.0
    ensures e.savings == 0.0 || e.savings == distance * (CarBaselineKgPerKm - factor)
    ensures e.savings >= distance * (CarBaselineKgPerKm - factor)
  {
    var emission := distance * factor;
    var carEmission := distance * CarBaselineKgPerKm;
    Entry(mode, ModeLabel(mode), distance, emission, Max(0.0, carEmission - emission))
  }

  /** The entry `addCommute` builds, with the factor lookup as written. For a non-negative
      distance the savings are exactly the emission avoided. */
  function NewEntry(mode: string, distance: real): (e: Entry)
    ensures e.mode == mode && e.modeLabel == ModeLabel(mode) && e.distance == distance
    ensures e.emission == distance * CommuteFactorAsWritten(mode)
    ensures e.savings >= 0.0
    ensures distance >= 0.0 ==> e.savings == distance * (CarBaselineKgPerKm - CommuteFactorAsWritten(mode))
    ensures distance <= 0.0 ==> e.savings == 0.0
  {
    EntryFor(mode, distance, CommuteFactorAsWritten(mode))
  }

  /** The entry the program evidently means to build, with the intended factor lookup. */
  function NewEntryIntended(mode: string, distance: real): (e: Entry)
    ensures e.mode == mode && e.modeLabel == ModeLabel(mode) && e.distance == distance
    ensures e.emission == distance * CommuteFactor(mode)
    ensures e.savings >= 0.0
    ensures distance >= 0.0 ==> e.savings == distance * (CarBaselineKgPerKm - CommuteFactor(mode))
    ensures distance <= 0.0 ==> e.savings == 0.0
  {
    EntryFor(mode, distance, CommuteFactor(mode))
  }

  /** The logged entry differs from the intended one exactly for a bike or walk commute over a
      non-zero distance. */
  lemma EntriesDiffer(mode: string, distance: real)
    ensures NewEntry(mode, distance) != NewEntryIntended(mode, distance)
        <==> mode in CommuteEmissionFactors && CommuteEmissionFactors[mode] == 0.0 && distance != 0.0
  {
    FactorLookupsDiffer(mode);
    if NewEntry(mode, distance) != NewEntryIntended(mode, distance) {
      assert CommuteFactorAsWritten(mode) != CommuteFactor(mode);
      assert distance != 0.0;
    } else if CommuteFactorAsWritten(mode) != CommuteFactor(mode) {
      assert distance * CommuteFactorAsWritten(mode) == distance * CommuteFactor(mode);
    }
  }

  /** Cycling 10 km is logged with 1.2 kg emitted and 0.9 kg saved, worth 9 credits, where the
      intended entry has 0 kg emitted and 2.1 kg saved, worth 21 credits. */
  lemma ZeroEmissionModesChargedAsWritten()
    ensures CommuteEmissionFactors["bike"] == 0.0 && CommuteFactorAsWritten("bike") == 0.12
    ensures CommuteEmissionFactors["walk"] == 0.0 && CommuteFactorAsWritten("walk") == 0.12
    ensures NewEntry("bike", 10.0).emission == 1.2 && NewEntry("bike", 10.0).savings == 0.9
    ensures NewEntryIntended("bike", 10.0).emission == 0.0 && NewEntryIntended("bike", 10.0).savings == 2.1
    ensures Credits([NewEntry("bike", 10.0)]) == 9
    ensures Credits([NewEntryIntended("bike", 10.0)]) == 21
  {
    assert [NewEntry("bike", 10.0)][..0] == [];
    assert [NewEntryIntended("bike", 10.0)][..0] == [];
  }

  /** `setCommutes(prev => [...prev, entry])`: the new entry goes last, the others are kept. */
  function AddCommute(log: seq<Entry>, mode: string, distance: real): (r: seq<Entry>)
    ensures |r| == |log| + 1
    ensures r[..|log|] == log
    ensures r[|log|] == NewEntry(mode, distance)
  {
    log + [NewEntry(mode, distance)]
  }

  ghost predicate SavingsNonNegative(log: seq<Entry>) {
    forall i :: 0 <= i < |log| ==> log[i].savings >= 0.0
  }

  /** A log built only by `AddCommute` never holds a negative saving. */
  lemma AddCommuteKeepsSavingsNonNegative(log: seq<Entry>, mode: string, distance: real)
    requires SavingsNonNegative(log)
    ensures SavingsNonNegative(AddCommute(log, mode, distance))
  {
  }

  /** `commutes.reduce((s, c) => s + c.savings, 0)`, folded from the left. */
  function TotalSaved(log: seq<Entry>): (t: real)
    ensures SavingsNonNegative(log) ==> t >= 0.0
  {
    if |log| == 0 then 0.0 else TotalSaved(log[..|log| - 1]) + log[|log| - 1].savings
  }

  ghost predicate EmissionsNonNegative(log: seq<Entry>) {
    forall i :: 0 <= i < |log| ==> log[i].emission >= 0.0
  }

  /** A log built by adding commutes over non-negative distances never holds a negative emission. */
  lemma AddCommuteKeepsEmissionsNonNegative(log: seq<Entry>, mode: string, distance: real)
    requires EmissionsNonNegative(log) && distance >= 0.0
    ensures EmissionsNonNegative(AddCommute(log, mode, distance))
  {
    var f := CommuteFactorAsWritten(mode);
    assert distance * f >= 0.0;
  }

  /** `commutes.reduce((s, c) => s + c.emission, 0)`, folded from the left. */
  function TotalEmissions(log: seq<Entry>): (t: real)
    ensures EmissionsNonNegative(log) ==> t >= 0.0
  {
    if |log| == 0 then 0.0 else TotalEmissions(log[..|log| - 1]) + log[|log| - 1].emission
  }

  /** `Math.round(saved * 10)`: ten credits per kg saved. */
  function Credits(log: seq<Entry>): (c: int)
    ensures SavingsNonNegative(log) ==> c >= 0
    ensures TotalSaved(log) * 10.0 - 0.5 < c as real <= TotalSaved(log) * 10.0 + 0.5
  {
    Round(TotalSaved(log) * 10.0)
  }

  /** Percentage of the weekly goal reached, capped at 100. */
  function GoalProgress(weeklySaved: real): (p: int)
    ensures p <= 100
    ensures weeklySaved >= 0.0 ==> p >= 0
    ensures weeklySaved >= WeeklyGoalKg ==> p == 100
    ensures p as real <= weeklySaved / WeeklyGoalKg * 100.0 + 0.5
    ensures p == 100 || weeklySaved / WeeklyGoalKg * 100.0 - 0.5 < p as real
  {
    MinInt(100, Round(weeklySaved / WeeklyGoalKg * 100.0))
  }

  /** `stats` of the commute page. */
  function WeeklyStats(log: seq<Entry>): (s: Stats)
    ensures SavingsNonNegative(log) ==> s.weeklySaved >= 0.0 && 0 <= s.goalProgress <= 100 && s.credits >= 0
    ensures s.credits == Credits(log) && s.weeklySaved == TotalSaved(log)
    ensures s.weeklyEmissions == TotalEmissions(log) && s.goalProgress == GoalProgress(s.weeklySaved)
  {
    var saved := TotalSaved(log);
    Stats(saved, TotalEmissions(log), GoalProgress(saved), Round(saved * 10.0))
  }

  /** Logging a commute adds exactly its savings and its emission to the weekly totals. */
  lemma AddCommuteTotals(log: seq<Entry>, mode: string, distance: real)
    ensures TotalSaved(AddCommute(log, mode, distance)) == TotalSaved(log) + NewEntry(mode, distance).savings
    ensures TotalEmissions(AddCommute(log, mode, distance)) == TotalEmissions(log) + NewEntry(mode, distance).emission
  {
    var r := AddCommute(log, mode, distance);
    assert r[..|r| - 1] == log;
  }

  /** Logging a commute never lowers the credits or the goal progress. */
  lemma AddCommuteNeverLowersCredits(log: seq<Entry>, mode: string, distance: real)
    ensures Credits(AddCommute(log, mode, distance)) >= Credits(log)
    ensures GoalProgress(TotalSaved(AddCommute(log, mode, distance))) >= GoalProgress(TotalSaved(log))
  {
    AddCommuteTotals(log, mode, distance);
    var before, after := TotalSaved(log), TotalSaved(AddCommute(log, mode, distance));
    RoundMonotone(before * 10.0, after * 10.0);
    RoundMonotone(before / WeeklyGoalKg * 100.0, after / WeeklyGoalKg * 100.0);
  }
}
