/**
 * The next-alarm sensor's update: it reads the platform's next scheduled
 * alarm, filters it through the sensor's "Allow List" setting of creator
 * packages, and reports one state with three attributes to the sensor sink.
 */
module NextAlarm {
  import opened Wrappers
  import opened Text

  const SENSOR_ID := "next_alarm"
  const ALLOW_LIST := "Allow List"
  /** The separator between the packages of the allow list. */
  const LIST_SEPARATOR := ", "
  /** Value type recorded with the seeded allow-list setting. */
  const LIST_APPS := "list-apps"
  const UNKNOWN_PACKAGE := "Unknown"
  const UNAVAILABLE := "unavailable"
  const ALARM_ICON := "mdi:alarm"
  const LOCAL_TIME := "Local Time"
  const TIME_IN_MILLISECONDS := "Time in Milliseconds"
  const PACKAGE := "Package"

  /** A stored sensor setting. */
  datatype Setting = Setting(sensorId: string, name: string, value: string, valueType: string)

  /** The platform's next alarm clock: the package that created it, if known, and when it rings. */
  datatype AlarmClock = AlarmClock(creatorPackage: Option<string>, triggerTime: int)

  /**
   * What asking the platform for the next alarm gives: none scheduled, an
   * alarm, or a failure the update catches and logs.
   */
  datatype AlarmQuery = NoAlarm | Scheduled(clock: AlarmClock) | QueryFailed

  datatype Attribute = TextValue(text: string) | Millis(millis: int)

  /** What is handed to the sensor sink. */
  datatype SensorUpdate = SensorUpdate(sensorId: string, state: string, icon: string, attributes: map<string, Attribute>)

  /** The decision of one update: whether the allow-list setting is seeded, and what is reported. */
  datatype Outcome = Outcome(seeded: bool, update: Option<SensorUpdate>)

  /** Index of the first setting called `name`. */
  function FindSetting(settings: seq<Setting>, name: string): (r: Option<nat>)
    ensures r.Some? ==> r.value < |settings| && settings[r.value].name == name
    ensures r.Some? ==> forall j :: 0 <= j < r.value ==> settings[j].name != name
    ensures r.None? ==> forall j :: 0 <= j < |settings| ==> settings[j].name != name
  {
    if settings == [] then None
    else if settings[0].name == name then Some(0)
    else
      var rest := FindSetting(settings[1..], name);
      if rest.None? then None else Some(rest.value + 1)
  }

  /** Setting `i` is the first one called `name`. */
  predicate FirstNamed(settings: seq<Setting>, i: nat, name: string)
    requires i < |settings|
  {
    settings[i].name == name && forall j :: 0 <= j < i ==> settings[j].name != name
  }

  /** The value of the first "Allow List" setting, or "" when there is none. */
  function AllowPackageList(settings: seq<Setting>): (list: string)
    ensures (forall j :: 0 <= j < |settings| ==> settings[j].name != ALLOW_LIST) ==> list == ""
    ensures forall i :: 0 <= i < |settings| && FirstNamed(settings, i, ALLOW_LIST) ==> list == settings[i].value
  {
    var i := FindSetting(settings, ALLOW_LIST);
    if i.None? then "" else settings[i.value].value
  }

  /** `pkg` is one of the entries of the allow list. */
  predicate Allowed(pkg: string, allowList: string) {
    pkg in Split(allowList, LIST_SEPARATOR)
  }

  /** The package an alarm is reported with. */
  function CreatorPackage(clock: AlarmClock): string {
    clock.creatorPackage.GetOr(UNKNOWN_PACKAGE)
  }

  function Report(state: string, local: string, triggerTime: int, pkg: string): SensorUpdate {
    SensorUpdate(SENSOR_ID, state, ALARM_ICON,
      map[LOCAL_TIME := TextValue(local), TIME_IN_MILLISECONDS := Millis(triggerTime), PACKAGE := TextValue(pkg)])
  }

  /** The setting written when an alarm is accepted with an empty allow list. */
  function SeedSetting(): Setting {
    Setting(SENSOR_ID, ALLOW_LIST, "", LIST_APPS)
  }

  /**
   * One update of the sensor, given whether it is enabled, its settings,
   * the platform's answer and the two timestamp formatters (local and UTC).
   */
  function NextAlarmOutcome(enabled: bool, settings: seq<Setting>, query: AlarmQuery,
                            formatLocal: int -> string, formatUtc: int -> string): Outcome
  {
    if !enabled then Outcome(false, None)
    else if !query.Scheduled? then Outcome(false, Some(Report(UNAVAILABLE, "", 0, "")))
    else
      var pkg, time := CreatorPackage(query.clock), query.clock.triggerTime;
      var allowList := AllowPackageList(settings);
      if allowList != "" && !Allowed(pkg, allowList) then Outcome(false, None)
      else Outcome(allowList == "", Some(Report(formatUtc(time), formatLocal(time), time, pkg)))
  }

  /** The sensor settings table. */
  class SensorDao {
    var rows: seq<Setting>

    constructor (rows: seq<Setting>)
      ensures this.rows == rows
    {
      this.rows := rows;
    }

    /** The settings of one sensor, in table order. */
    function GetSettings(sensorId: string): (settings: seq<Setting>)
      reads this
    {
      SettingsOf(rows, sensorId)
    }

    method Add(setting: Setting)
      modifies this
      ensures rows == old(rows) + [setting]
    {
      rows := rows + [setting];
    }
  }

  function SettingsOf(rows: seq<Setting>, sensorId: string): (settings: seq<Setting>)
    ensures forall s :: s in settings <==> s in rows && s.sensorId == sensorId
  {
    if rows == [] then []
    else (if rows[0].sensorId == sensorId then [rows[0]] else []) + SettingsOf(rows[1..], sensorId)
  }

  /**
   * Updates the sensor: returns what is reported to the sink, if anything,
   * and seeds the allow-list setting as `NextAlarmOutcome` decides.
   */
  method UpdateNextAlarm(dao: SensorDao, enabled: bool, query: AlarmQuery,
                         formatLocal: int -> string, formatUtc: int -> string)
    returns (update: Option<SensorUpdate>)
    modifies dao
    ensures var outcome := NextAlarmOutcome(enabled, old(dao.GetSettings(SENSOR_ID)), query, formatLocal, formatUtc);
      && update == outcome.update
      && dao.rows == old(dao.rows) + (if outcome.seeded then [SeedSetting()] else [])
  {
    if !enabled {
      return None;
    }
    var triggerTime := 0;
    var local := "";
    var utc := UNAVAILABLE;
    var pendingIntent := "";
    var sensorSetting := dao.GetSettings(SENSOR_ID);
    var allowPackageList := AllowPackageList(sensorSetting);
    if query.Scheduled? {
      var clock := query.clock;
      pendingIntent := clock.creatorPackage.GetOr(UNKNOWN_PACKAGE);
      triggerTime := clock.triggerTime;
      if allowPackageList != "" {
        var allowPackageListing := Split(allowPackageList, LIST_SEPARATOR);
        if pendingIntent !in allowPackageListing {
          return None;
        }
      } else {
        dao.Add(Setting(SENSOR_ID, ALLOW_LIST, allowPackageList, LIST_APPS));
      }
      local := formatLocal(triggerTime);
      utc := formatUtc(triggerTime);
    }
    update := Some(Report(utc, local, triggerTime, pendingIntent));
  }

  // ---------------------------------------------------------------------
  // Properties of an update
  // ---------------------------------------------------------------------

  /** A disabled sensor writes nothing and reports nothing. */
  lemma DisabledDoesNothing(settings: seq<Setting>, query: AlarmQuery, fl: int -> string, fu: int -> string)
    ensures NextAlarmOutcome(false, settings, query, fl, fu) == Outcome(false, None)
  {
  }

  /**
   * Without a scheduled alarm the sensor reports "unavailable" with trigger
   * time 0 and empty local time and package, and seeds nothing.
   */
  lemma NoAlarmReportsDefaults(settings: seq<Setting>, query: AlarmQuery, fl: int -> string, fu: int -> string)
    requires !query.Scheduled?
    ensures var o := NextAlarmOutcome(true, settings, query, fl, fu);
      && !o.seeded && o.update.Some?
      && o.update.value.state == UNAVAILABLE
      && o.update.value.attributes[LOCAL_TIME] == TextValue("")
      && o.update.value.attributes[TIME_IN_MILLISECONDS] == Millis(0)
      && o.update.value.attributes[PACKAGE] == TextValue("")
  {
  }

  /**
   * With a non-empty allow list, an alarm is skipped exactly when its
   * creator package (or "Unknown") is not one of the list's entries, and
   * the setting is never seeded; an accepted alarm is reported with its
   * formatted times and package.
   */
  lemma AllowListFilters(settings: seq<Setting>, clock: AlarmClock, fl: int -> string, fu: int -> string)
    requires AllowPackageList(settings) != ""
    ensures var o := NextAlarmOutcome(true, settings, Scheduled(clock), fl, fu);
      var pkg := CreatorPackage(clock);
      && !o.seeded
      && (o.update.None? <==> !Allowed(pkg, AllowPackageList(settings)))
      && (o.update.Some? ==> o.update.value == Report(fu(clock.triggerTime), fl(clock.triggerTime), clock.triggerTime, pkg))
  {
  }

  /** With an empty allow list, every alarm is accepted and the empty list is seeded. */
  lemma EmptyListSeeds(settings: seq<Setting>, clock: AlarmClock, fl: int -> string, fu: int -> string)
    requires AllowPackageList(settings) == ""
    ensures var o := NextAlarmOutcome(true, settings, Scheduled(clock), fl, fu);
      && o.seeded
      && o.update == Some(Report(fu(clock.triggerTime), fl(clock.triggerTime), clock.triggerTime, CreatorPackage(clock)))
  {
  }

  /** An alarm whose creator is unknown is reported as "Unknown" and passes a non-empty list only if "Unknown" is listed. */
  lemma UnknownCreator(settings: seq<Setting>, time: int, fl: int -> string, fu: int -> string)
    requires AllowPackageList(settings) != ""
    ensures var o := NextAlarmOutcome(true, settings, Scheduled(AlarmClock(None, time)), fl, fu);
      && (o.update.Some? <==> Allowed(UNKNOWN_PACKAGE, AllowPackageList(settings)))
      && (o.update.Some? ==> o.update.value.attributes[PACKAGE] == TextValue(UNKNOWN_PACKAGE))
  {
  }

  /** The setting is seeded only when an alarm is accepted with an empty allow list. */
  lemma SeededOnlyWhenEmpty(enabled: bool, settings: seq<Setting>, query: AlarmQuery, fl: int -> string, fu: int -> string)
    ensures NextAlarmOutcome(enabled, settings, query, fl, fu).seeded
      <==> enabled && query.Scheduled? && AllowPackageList(settings) == ""
  {
  }

  /**
   * Every report is for the next-alarm sensor with the alarm icon and
   * exactly the three attributes "Local Time", "Time in Milliseconds" and "Package".
   */
  lemma ReportShape(enabled: bool, settings: seq<Setting>, query: AlarmQuery, fl: int -> string, fu: int -> string)
    ensures var o := NextAlarmOutcome(enabled, settings, query, fl, fu);
      o.update.Some? ==>
        && o.update.value.sensorId == SENSOR_ID
        && o.update.value.icon == ALARM_ICON
        && o.update.value.attributes.Keys == {LOCAL_TIME, TIME_IN_MILLISECONDS, PACKAGE}
  {
  }

  /** A list holding one package, without ", ", admits exactly that package. */
  lemma SingleEntryList(pkg: string, allowList: string)
    requires allowList != "" && !Contains(allowList, LIST_SEPARATOR)
    ensures Allowed(pkg, allowList) <==> pkg == allowList
  {
    SplitWithoutSeparator(allowList, LIST_SEPARATOR);
  }

  /**
   * A list written as package names joined by ", " admits exactly those
   * names, as long as no name contains ", ".
   */
  lemma JoinedListAdmits(pkgs: seq<string>, pkg: string)
    requires |pkgs| >= 1
    requires forall p :: p in pkgs ==> !Contains(p, LIST_SEPARATOR)
    ensures Allowed(pkg, Join(pkgs, LIST_SEPARATOR)) <==> pkg in pkgs
  {
    SplitJoin(pkgs, LIST_SEPARATOR);
  }

  /**
   * Every entry the list is cut into is free of ", ", and the entries
   * joined with ", " give back the stored list.
   */
  lemma AllowListEntries(allowList: string)
    ensures Join(Split(allowList, LIST_SEPARATOR), LIST_SEPARATOR) == allowList
    ensures forall p :: p in Split(allowList, LIST_SEPARATOR) ==> !Contains(p, LIST_SEPARATOR)
  {
    JoinSplit(allowList, LIST_SEPARATOR);
    SplitPiecesAreFree(allowList, LIST_SEPARATOR);
  }
}
