/**
 * Filter rules and the analyzer's configuration: the records that
 * `config/filters.yaml` holds, the built-in default configuration and the
 * selection of the enabled rules.
 */
module Filters {

  /** One configured rule: a name, a regular expression and an on/off flag. */
  datatype FilterRule = FilterRule(name: string, pattern: string, enabled: bool)

  /** The loaded configuration: the rules in file order, the log path and the window size. */
  datatype Config = Config(filters: seq<FilterRule>, logFile: string, maxLines: int)

  /** The configuration written when no configuration file exists yet. */
  const DefaultConfig: Config := Config(
    [ FilterRule("Ошибки", "ERROR|CRITICAL|FAILED|EXCEPTION", true),
      FilterRule("Предупреждения", "WARNING", true),
      FilterRule("Авторизация", "AUTH|LOGIN|LOGOUT|SESSION", false) ],
    "logs/logs.log",
    1000)

  /** The enabled rules, in configuration order. */
  function ActiveFilters(rules: seq<FilterRule>): (r: seq<FilterRule>)
    ensures forall f :: f in r <==> f in rules && f.enabled
    ensures |r| <= |rules|
  {
    if rules == [] then []
    else (if rules[0].enabled then [rules[0]] else []) + ActiveFilters(rules[1..])
  }

  /**
   * Selection keeps configuration order: the active rules of a concatenation are
   * the active rules of the first part followed by those of the second.
   */
  lemma {:induction false} ActiveFiltersAppend(a: seq<FilterRule>, b: seq<FilterRule>)
    ensures ActiveFilters(a + b) == ActiveFilters(a) + ActiveFilters(b)
    decreases |a|
  {
    if a == [] {
      assert a + b == b;
    } else {
      assert (a + b)[1..] == a[1..] + b;
      ActiveFiltersAppend(a[1..], b);
    }
  }

  /** A single rule is kept exactly when it is enabled. */
  lemma ActiveFiltersSingle(f: FilterRule)
    ensures ActiveFilters([f]) == if f.enabled then [f] else []
  {
  }

  /** With the default configuration the errors and warnings rules are active, the authorisation rule is not. */
  lemma DefaultActiveFilters()
    ensures ActiveFilters(DefaultConfig.filters) == DefaultConfig.filters[..2]
  {
  }
}
