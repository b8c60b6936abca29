/**
 * What a menu-bar surface shows on each of its ticks: load the stored record
 * and, if there is one, split the time remaining until its expected death
 * date. The menu-bar label and the menu-bar dropdown both compute this from
 * the shared suite, each with its own "now".
 */
module MenuBar {
  import opened Wrappers
  import opened LifeTimer
  import opened TimerStore

  /** `None` when there is no record to show (the surface shows its setup or timer icon instead). */
  function Reading(d: Defaults, codec: Codec, addYears: YearAdder, now: Date): (r: Option<Breakdown>)
    ensures r.Some? <==> Load(d, codec).Some?
    ensures r.Some? ==> InRange(r.value)
    ensures r.Some? && IsExpired(Load(d, codec).value, addYears, now) ==> r.value == Zero
    ensures r.Some? && !IsExpired(Load(d, codec).value, addYears, now) ==>
      TotalSeconds(r.value) == TruncateToInt(ExpectedDeathDate(Load(d, codec).value, addYears) - now)
  {
    match Load(d, codec)
    case None => None
    case Some(data) =>
      var remaining := TimeRemaining(data, addYears, now);
      if remaining > 0.0 then
        FormattedReconstructs(remaining);
        Some(FormattedTimeRemaining(remaining))
      else
        Some(FormattedTimeRemaining(remaining))
  }

  /**
   * Right after setup saves a record, the menu-bar surfaces count down to
   * that record's expected death date, to the truncated second; after a
   * reset they show nothing.
   */
  lemma ReadingAfterSave(d: Defaults, codec: Codec, addYears: YearAdder, data: LifeTimerData, now: Date)
    requires d.Available? && codec.encode(data).Some?
    requires RoundTripsOn(codec, data)
    ensures Reading(Save(d, codec, data), codec, addYears, now).Some?
    ensures now < ExpectedDeathDate(data, addYears) ==>
      TotalSeconds(Reading(Save(d, codec, data), codec, addYears, now).value) == TruncateToInt(ExpectedDeathDate(data, addYears) - now)
    ensures Reading(Clear(Save(d, codec, data)), codec, addYears, now) == None
  {
    SaveThenLoad(d, codec, data);
    ClearThenLoad(Save(d, codec, data), codec);
    if now < ExpectedDeathDate(data, addYears) {
      FormattedReconstructs(TimeRemaining(data, addYears, now));
    }
  }

  /** Between two ticks one second apart, a running countdown drops by exactly one second. */
  lemma ReadingTicks(d: Defaults, codec: Codec, addYears: YearAdder, now: Date)
    requires Load(d, codec).Some?
    requires now + 1.0 <= ExpectedDeathDate(Load(d, codec).value, addYears)
    ensures TotalSeconds(Reading(d, codec, addYears, now + 1.0).value) == TotalSeconds(Reading(d, codec, addYears, now).value) - 1
  {
    var data := Load(d, codec).value;
    assert TimeRemaining(data, addYears, now + 1.0) == TimeRemaining(data, addYears, now) - 1.0;
    FormattedTick(TimeRemaining(data, addYears, now));
  }
}
