/**
 The client configuration built from the settings table: the stored documents of
 the contract's keys merged over the compiled defaults, with the timers clamped.
 */
module ClientConfigBuild {
  import opened Wrappers
  import opened JsonDoc

  /** Contract key -> document. */
  type Config = map<string, Document>

  const DEFAULTS: Config := map[
    "ops.kill_switches" := map["payments" := JBool(true), "promotions" := JBool(true),
                               "posting" := JBool(true), "applications" := JBool(true)],
    "ops.maintenance" := map["active" := JBool(false), "message" := JStr("")],
    "ops.min_version" := map["soft" := JStr(""), "hard" := JStr(""), "message" := JStr(""), "store_url" := JStr("")],
    "ops.announcement" := map["id" := JStr(""), "active" := JBool(false), "message" := JStr(""), "url" := JStr("")],
    "tuning.payments" := map["poll_interval_seconds" := JNum(Finite(5.0)), "poll_budget" := JNum(Finite(24.0))],
    "tuning.listings" := map["urgent_window_minutes" := JNum(Finite(60.0))]]

  /** The clamped fields: document, field, floor and ceiling. */
  datatype Clamped = Clamped(key: string, field: string, lo: int, hi: int)

  const INTERVAL := Clamped("tuning.payments", "poll_interval_seconds", 2, 60)
  const BUDGET := Clamped("tuning.payments", "poll_budget", 6, 120)
  const URGENT := Clamped("tuning.listings", "urgent_window_minutes", 5, 24 * 60)

  /** `Math.round`: halves go up. */
  function Round(x: real): int {
    (x + 0.5).Floor
  }

  function Clamp(x: int, lo: int, hi: int): int {
    var raised := if x < lo then lo else x;
    if raised > hi then hi else raised
  }

  function ClampNumber(v: Json, lo: int, hi: int): Json {
    if v.JNum? && v.n.Finite? then JNum(Finite(Clamp(Round(v.n.value), lo, hi) as real)) else v
  }

  // ---------------------------------------------------------------- from table to config

  /** The rows the service takes from the table: contract keys whose value is an object. */
  function RowsOf(defaults: Config, table: map<string, Json>): Config {
    map k | k in table && k in defaults && table[k].JObj? :: table[k].fields
  }

  function MergedConfig(defaults: Config, rows: Config): Config {
    map k | k in defaults :: Merged(defaults[k], if k in rows then rows[k] else map[])
  }

  function ClampField(config: Config, c: Clamped): Config {
    if c.key in config && c.field in config[c.key] then
      config[c.key := config[c.key][c.field := ClampNumber(config[c.key][c.field], c.lo, c.hi)]]
    else config
  }

  function ClampAll(config: Config): Config {
    ClampField(ClampField(ClampField(config, INTERVAL), BUDGET), URGENT)
  }

  function Build(defaults: Config, table: map<string, Json>): Config {
    ClampAll(MergedConfig(defaults, RowsOf(defaults, table)))
  }

  /** Every document and field of the contract, with the default's type, and nothing else. */
  ghost predicate WellTyped(defaults: Config, config: Config) {
    config.Keys == defaults.Keys && forall k :: k in defaults ==> DocumentTyped(defaults[k], config[k])
  }

  ghost predicate DocumentTyped(default: Document, doc: Document) {
    doc.Keys == default.Keys && forall f :: f in default ==> Accepts(default[f], doc[f])
  }

  predicate InRange(config: Config, c: Clamped) {
    && c.key in config && c.field in config[c.key]
    && IsWholeIn(config[c.key][c.field], c.lo, c.hi)
  }

  predicate IsWholeIn(v: Json, lo: int, hi: int) {
    v.JNum? && v.n.Finite? && v.n.value == v.n.value.Floor as real && lo <= v.n.value.Floor <= hi
  }

  /** What the compiled defaults provide: values of their own type, and the clamped timers. */
  ghost predicate Contract(defaults: Config) {
    && WellTyped(defaults, defaults)
    && HasTimer(defaults, INTERVAL) && HasTimer(defaults, BUDGET) && HasTimer(defaults, URGENT)
  }

  predicate HasTimer(defaults: Config, c: Clamped) {
    && c.lo <= c.hi
    && c.key in defaults && c.field in defaults[c.key]
    && defaults[c.key][c.field].JNum?
  }

  lemma DefaultsMeetContract()
    ensures Contract(DEFAULTS)
  {
    forall k | k in DEFAULTS ensures DocumentTyped(DEFAULTS[k], DEFAULTS[k]) {
    }
  }

  lemma ClampFieldKeeps(defaults: Config, config: Config, c: Clamped, d: Clamped)
    requires HasTimer(defaults, c) && WellTyped(defaults, config)
    ensures WellTyped(defaults, ClampField(config, c)) && InRange(ClampField(config, c), c)
    ensures (c.key != d.key || c.field != d.field) && InRange(config, d) ==> InRange(ClampField(config, c), d)
  {
    assert DocumentTyped(defaults[c.key], config[c.key]);
    var v := config[c.key][c.field];
    assert Accepts(defaults[c.key][c.field], v);
    var config' := ClampField(config, c);
    assert DocumentTyped(defaults[c.key], config'[c.key]);
    forall k | k in defaults ensures DocumentTyped(defaults[k], config'[k]) {
      assert DocumentTyped(defaults[k], config[k]);
    }
  }

  lemma MergedIsTyped(defaults: Config, rows: Config)
    requires WellTyped(defaults, defaults)
    ensures WellTyped(defaults, MergedConfig(defaults, rows))
  {
    forall k | k in defaults ensures DocumentTyped(defaults[k], MergedConfig(defaults, rows)[k]) {
      assert DocumentTyped(defaults[k], defaults[k]);
    }
  }

  lemma ClampAllKeeps(defaults: Config, config: Config)
    requires HasTimer(defaults, INTERVAL) && HasTimer(defaults, BUDGET) && HasTimer(defaults, URGENT)
    requires WellTyped(defaults, config)
    ensures WellTyped(defaults, ClampAll(config))
    ensures InRange(ClampAll(config), INTERVAL) && InRange(ClampAll(config), BUDGET)
    ensures InRange(ClampAll(config), URGENT)
  {
    var c1 := ClampField(config, INTERVAL);
    var c2 := ClampField(c1, BUDGET);
    ClampFieldKeeps(defaults, config, INTERVAL, INTERVAL);
    ClampFieldKeeps(defaults, c1, BUDGET, INTERVAL);
    ClampFieldKeeps(defaults, c2, URGENT, INTERVAL);
    ClampFieldKeeps(defaults, c2, URGENT, BUDGET);
  }

  /** Whatever the table holds, the built config is complete, well typed, and within the bounds. */
  lemma BuildIsTotal(defaults: Config, table: map<string, Json>)
    requires Contract(defaults)
    ensures WellTyped(defaults, Build(defaults, table))
    ensures InRange(Build(defaults, table), INTERVAL)
    ensures InRange(Build(defaults, table), BUDGET)
    ensures InRange(Build(defaults, table), URGENT)
  {
    MergedIsTyped(defaults, RowsOf(defaults, table));
    ClampAllKeeps(defaults, MergedConfig(defaults, RowsOf(defaults, table)));
  }

  /** `y` is the whole number next to `x`, halves going up, or the bound beyond which that lies. */
  predicate Settles(x: Json, lo: int, hi: int, y: Json) {
    && x.JNum? && x.n.Finite? && IsWholeIn(y, lo, hi)
    && (y.n.value == lo as real || y.n.value - 0.5 <= x.n.value)
    && (y.n.value == hi as real || x.n.value < y.n.value + 0.5)
  }

  lemma Rounded(x: real)
    ensures Round(x) as real - 0.5 <= x < Round(x) as real + 0.5
  {
  }

  lemma ClampSettles(v: Json, lo: int, hi: int)
    requires v.JNum? && v.n.Finite? && lo <= hi
    ensures Settles(v, lo, hi, ClampNumber(v, lo, hi))
  {
    Rounded(v.n.value);
  }

  lemma ClampedField(config: Config, c: Clamped, key: string, field: string)
    requires key in config && field in config[key]
    ensures var config' := ClampField(config, c);
            && key in config' && field in config'[key]
            && config'[key][field] ==
               if key == c.key && field == c.field then ClampNumber(config[key][field], c.lo, c.hi)
               else config[key][field]
  {
  }

  lemma AllClamped(config: Config, key: string, field: string)
    requires key in config && field in config[key]
    ensures var (v, config') := (config[key][field], ClampAll(config));
            && key in config' && field in config'[key]
            && config'[key][field] ==
               if key == "tuning.payments" && field == "poll_interval_seconds" then ClampNumber(v, 2, 60)
               else if key == "tuning.payments" && field == "poll_budget" then ClampNumber(v, 6, 120)
               else if key == "tuning.listings" && field == "urgent_window_minutes" then ClampNumber(v, 5, 1440)
               else v
  {
    var c1 := ClampField(config, INTERVAL);
    ClampedField(config, INTERVAL, key, field);
    ClampedField(c1, BUDGET, key, field);
    ClampedField(ClampField(c1, BUDGET), URGENT, key, field);
    assert "poll_interval_seconds"[5] != "poll_budget"[5];
    assert "tuning.payments"[7] != "tuning.listings"[7];
  }

  /** The stored value, if its row is an object and its type fits, and the default otherwise. */
  function Taken(defaults: Config, table: map<string, Json>, key: string, field: string): Json
    requires key in defaults && field in defaults[key]
  {
    if && key in table && table[key].JObj? && field in table[key].fields
       && Accepts(defaults[key][field], table[key].fields[field]) then table[key].fields[field]
    else defaults[key][field]
  }

  lemma TakenIsMerged(defaults: Config, table: map<string, Json>, key: string, field: string)
    requires key in defaults && field in defaults[key]
    ensures var merged := MergedConfig(defaults, RowsOf(defaults, table));
            key in merged && field in merged[key] && merged[key][field] == Taken(defaults, table, key, field)
  {
  }

  predicate IsTimer(key: string, field: string) {
    || (key == "tuning.payments" && field in ["poll_interval_seconds", "poll_budget"])
    || (key == "tuning.listings" && field == "urgent_window_minutes")
  }

  lemma TimerIsNumber(defaults: Config, table: map<string, Json>, key: string, field: string)
    requires Contract(defaults) && key in defaults && field in defaults[key] && IsTimer(key, field)
    ensures var value := Taken(defaults, table, key, field);
            value.JNum? && value.n.Finite?
  {
    assert DocumentTyped(defaults[key], defaults[key]);
    assert Accepts(defaults[key][field], defaults[key][field]);
    assert defaults[key][field].JNum?;
  }

  /** What a field is built from a value. */
  predicate BuiltFrom(key: string, field: string, value: Json, built: Json) {
    if key == "tuning.payments" && field == "poll_interval_seconds" then Settles(value, 2, 60, built)
    else if key == "tuning.payments" && field == "poll_budget" then Settles(value, 6, 120, built)
    else if key == "tuning.listings" && field == "urgent_window_minutes" then Settles(value, 5, 1440, built)
    else built == value
  }

  lemma ClampedIsBuilt(config: Config, key: string, field: string)
    requires key in config && field in config[key]
    requires IsTimer(key, field) ==> config[key][field].JNum? && config[key][field].n.Finite?
    ensures var config' := ClampAll(config);
            key in config' && field in config'[key] && BuiltFrom(key, field, config[key][field], config'[key][field])
  {
    AllClamped(config, key, field);
    if IsTimer(key, field) {
      ClampSettles(config[key][field], 2, 60);
      ClampSettles(config[key][field], 6, 120);
      ClampSettles(config[key][field], 5, 1440);
    }
  }

  /** What every field of the built config is: the value taken, and for a timer that value rounded and
      kept within its bounds. */
  lemma BuiltField(defaults: Config, table: map<string, Json>, key: string, field: string)
    requires Contract(defaults) && key in defaults && field in defaults[key]
    ensures var config := Build(defaults, table);
            && key in config && field in config[key]
            && BuiltFrom(key, field, Taken(defaults, table, key, field), config[key][field])
  {
    TakenIsMerged(defaults, table, key, field);
    if IsTimer(key, field) {
      TimerIsNumber(defaults, table, key, field);
    }
    ClampedIsBuilt(MergedConfig(defaults, RowsOf(defaults, table)), key, field);
  }

  lemma Switches(switch: string)
    requires switch in ["payments", "promotions", "posting", "applications"]
    ensures "ops.kill_switches" in DEFAULTS && switch in DEFAULTS["ops.kill_switches"]
    ensures DEFAULTS["ops.kill_switches"][switch] == JBool(true)
  {
  }

  /** With nothing stored, nothing is switched off. */
  lemma NothingSwitchedOff(switch: string)
    requires switch in ["payments", "promotions", "posting", "applications"]
    ensures var config := Build(DEFAULTS, map[]);
            && "ops.kill_switches" in config && switch in config["ops.kill_switches"]
            && config["ops.kill_switches"][switch] == JBool(true)
  {
    Switches(switch);
    DefaultsMeetContract();
    BuiltField(DEFAULTS, map[], "ops.kill_switches", switch);
    assert "ops.kill_switches"[0] != "tuning.payments"[0] && "ops.kill_switches"[0] != "tuning.listings"[0];
  }

  /** A row outside the contract, and a contract row that is no object, has no influence. */
  lemma OtherRowsIgnored(defaults: Config, table: map<string, Json>, key: string, value: Json)
    requires key !in defaults || !value.JObj?
    ensures Build(defaults, table[key := value]) == Build(defaults, table - {key})
  {
    OtherRowsDropped(defaults, table, key, value);
  }

  lemma OtherRowsDropped(defaults: Config, table: map<string, Json>, key: string, value: Json)
    requires key !in defaults || !value.JObj?
    ensures RowsOf(defaults, table[key := value]) == RowsOf(defaults, table - {key})
  {
  }

  function Stored(config: Config): map<string, Json> {
    map k | k in config :: JObj(config[k])
  }

  lemma ClampInRange(config: Config, c: Clamped)
    requires InRange(config, c)
    ensures ClampField(config, c) == config
  {
    var v := config[c.key][c.field];
    assert Round(v.n.value) == v.n.value.Floor;
    assert ClampNumber(v, c.lo, c.hi) == v;
    assert config[c.key][c.field := v] == config[c.key];
  }

  lemma MergeOfWellTyped(defaults: Config, config: Config)
    requires WellTyped(defaults, config)
    ensures MergedConfig(defaults, RowsOf(defaults, Stored(config))) == config
  {
    var rows := RowsOf(defaults, Stored(config));
    forall k | k in defaults ensures Merged(defaults[k], if k in rows then rows[k] else map[]) == config[k] {
      assert rows[k] == config[k] && DocumentTyped(defaults[k], config[k]);
    }
  }

  /** Storing the built config and building again gives the same config. */
  lemma BuildIsFixpoint(defaults: Config, table: map<string, Json>)
    requires Contract(defaults)
    ensures Build(defaults, Stored(Build(defaults, table))) == Build(defaults, table)
  {
    var config := Build(defaults, table);
    BuildIsTotal(defaults, table);
    MergeOfWellTyped(defaults, config);
    ClampInRange(config, INTERVAL);
    ClampInRange(config, BUDGET);
    ClampInRange(config, URGENT);
  }

  /** The build as the service performs it: merge each document, then clamp in place. */
  method BuildConfig(defaults: Config, rows: Config) returns (config: Config)
    ensures config == ClampAll(MergedConfig(defaults, rows))
  {
    config := map[];
    var todo := defaults.Keys;
    while todo != {}
      invariant todo <= defaults.Keys
      invariant config == map k | k in defaults && k !in todo ::
                  Merged(defaults[k], if k in rows then rows[k] else map[])
    {
      var k :| k in todo;
      todo := todo - {k};
      var doc := Merge(defaults[k], if k in rows then Some(rows[k]) else None);
      config := config[k := doc];
    }
    assert config == MergedConfig(defaults, rows);
    config := ClampIn(config, INTERVAL);
    config := ClampIn(config, BUDGET);
    config := ClampIn(config, URGENT);
  }

  method ClampIn(config: Config, c: Clamped) returns (r: Config)
    ensures r == ClampField(config, c)
  {
    r := config;
    if c.key in config && c.field in config[c.key] {
      var v := config[c.key][c.field];
      if v.JNum? && v.n.Finite? {
        var rounded := Round(v.n.value);
        var floored := if rounded < c.lo then c.lo else rounded;
        var capped := if floored > c.hi then c.hi else floored;
        r := config[c.key := config[c.key][c.field := JNum(Finite(capped as real))]];
      } else {
        assert config[c.key][c.field := v] == config[c.key];
      }
    }
  }
}
