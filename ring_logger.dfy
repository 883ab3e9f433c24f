/** The logger's compile-time gate: which calls to `push` and `lpush` reach
    the logging branch, decided by the call's level against the logger's
    compile-time level and by the call's name against the allowed and
    ignored name lists. */
module RingLogger {
  import opened RingLoggerHelpers

  /** `RingLoggerLevel`, in declaration order; NONE is the highest level and
      switches every call off. */
  datatype Level = DEBUG | INFO | ERROR | NONE

  /** The enumerator's underlying value, which the level comparison uses. */
  function Rank(l: Level): nat {
    match l
    case DEBUG => 0
    case INFO => 1
    case ERROR => 2
    case NONE => 3
  }

  /** The template parameters of a `RingLogger` that take part in the gate. */
  datatype Config = Config(compileLevel: Level, allowedLabels: string, ignoredLabels: string)

  /** The logger with every template parameter at its default: all levels,
      no allowed list, no ignored list. */
  function DefaultConfig(): Config {
    Config(DEBUG, EMPTY_STRING, EMPTY_STRING)
  }

  const EMPTY_STRING: string := ""

  /** `should_log`: the level is at least the compile-time level, the name
      is admitted by the allowed list ("" and "*" admit everything), and the
      name is not on the ignored list. */
  predicate ShouldLog(cfg: Config, level: Level, name: string) {
    && Rank(level) >= Rank(cfg.compileLevel)
    && (cfg.allowedLabels == "" || cfg.allowedLabels == "*" || IsLabelInList(name, cfg.allowedLabels))
    && !IsLabelInList(name, cfg.ignoredLabels)
  }

  /** Whether `lpush<level, name>` takes the logging branch. */
  predicate LabelledPush(cfg: Config, level: Level, name: string) {
    ShouldLog(cfg, level, name)
  }

  /** `push<level>`: an `lpush` with the empty name. */
  predicate Push(cfg: Config, level: Level) {
    LabelledPush(cfg, level, EMPTY_STRING)
  }

  /** `push_info`. */
  predicate PushInfo(cfg: Config) {
    Push(cfg, INFO)
  }

  /** `lpush_info<name>`. */
  predicate LabelledPushInfo(cfg: Config, name: string) {
    LabelledPush(cfg, INFO, name)
  }

  /** `pull`: a stub that never yields a record. */
  function Pull(bufferSize: nat): (pulled: bool)
    ensures !pulled
  {
    false
  }

  /** The level order is DEBUG < INFO < ERROR < NONE, and it is total. */
  lemma LevelOrder(a: Level, b: Level)
    ensures Rank(DEBUG) < Rank(INFO) < Rank(ERROR) < Rank(NONE)
    ensures Rank(a) == Rank(b) <==> a == b
  {
  }

  /** The gate stated on the list items: the name is allowed by a
      wildcard list or equals a trimmed item of it, and equals no trimmed
      item of the ignored list. */
  lemma ShouldLogIff(cfg: Config, level: Level, name: string)
    requires NoNul(name) && NoNul(cfg.allowedLabels) && NoNul(cfg.ignoredLabels)
    ensures ShouldLog(cfg, level, name) <==>
      && Rank(level) >= Rank(cfg.compileLevel)
      && (cfg.allowedLabels == "" || cfg.allowedLabels == "*" || InItems(name, cfg.allowedLabels))
      && !InItems(name, cfg.ignoredLabels)
  {
    IsLabelInListIff(name, cfg.allowedLabels);
    IsLabelInListIff(name, cfg.ignoredLabels);
  }

  /** A call below the compile-time level is never logged, whatever its name. */
  lemma BelowCompileLevelSuppressed(cfg: Config, level: Level, name: string)
    requires Rank(level) < Rank(cfg.compileLevel)
    ensures !ShouldLog(cfg, level, name)
  {
  }

  /** A logger compiled at NONE logs nothing below NONE. */
  lemma NoneLevelSilences(cfg: Config, level: Level, name: string)
    requires cfg.compileLevel == NONE && level != NONE
    ensures !ShouldLog(cfg, level, name)
  {
    BelowCompileLevelSuppressed(cfg, level, name);
  }

  /** An ignored name is never logged, even when the allowed list names it. */
  lemma IgnoredOverridesAllowed(cfg: Config, level: Level, name: string)
    requires NoNul(name) && NoNul(cfg.ignoredLabels)
    requires InItems(name, cfg.ignoredLabels)
    ensures !ShouldLog(cfg, level, name)
  {
    IsLabelInListIff(name, cfg.ignoredLabels);
  }

  /** Under an empty or "*" allowed list, every name at a high enough level
      that is not ignored is logged. */
  lemma WildcardAdmitsAll(cfg: Config, level: Level, name: string)
    requires NoNul(name) && NoNul(cfg.ignoredLabels)
    requires cfg.allowedLabels == "" || cfg.allowedLabels == "*"
    requires Rank(level) >= Rank(cfg.compileLevel) && !InItems(name, cfg.ignoredLabels)
    ensures ShouldLog(cfg, level, name)
  {
    IsLabelInListIff(name, cfg.ignoredLabels);
  }

  /** Under any other allowed list, a name must equal one of its items. */
  lemma RestrictedListNeedsMembership(cfg: Config, level: Level, name: string)
    requires NoNul(name) && NoNul(cfg.allowedLabels)
    requires cfg.allowedLabels != "" && cfg.allowedLabels != "*"
    ensures ShouldLog(cfg, level, name) ==> InItems(name, cfg.allowedLabels)
  {
    IsLabelInListIff(name, cfg.allowedLabels);
  }

  /** `push` has the empty name, so under a restrictive allowed list with no
      empty item it is suppressed at every level. */
  lemma UnlabelledPushSuppressed(cfg: Config, level: Level)
    requires NoNul(cfg.allowedLabels)
    requires cfg.allowedLabels != "" && cfg.allowedLabels != "*"
    requires !InItems(EMPTY_STRING, cfg.allowedLabels)
    ensures !Push(cfg, level)
  {
    RestrictedListNeedsMembership(cfg, level, EMPTY_STRING);
  }

  /** The default logger logs every push and every labelled push at every
      level but NONE. */
  lemma DefaultLogsEverything(level: Level, name: string)
    ensures ShouldLog(DefaultConfig(), level, name)
  {
    EmptyListHoldsNothing(name);
  }

  /** With "garbage" ignored, `lpush_info<garbage>` is suppressed and
      `lpush_info<foo>` is logged. */
  lemma IgnoreLabelExample()
    ensures !LabelledPushInfo(Config(DEBUG, EMPTY_STRING, "garbage"), "garbage")
    ensures LabelledPushInfo(Config(DEBUG, EMPTY_STRING, "garbage"), "foo")
  {
    var list := "garbage";
    assert SkipWhitespace(list, 0) == 0;
    assert FindCommaOrEnd(list, 0) == 7;
    assert RTrimWhitespace(list, 0, 7) == 7;
    UnfoldScan("garbage", list, 0, 0, 7);
    UnfoldScan("foo", list, 0, 0, 7);
    IsLabelEqualIff("garbage", list, 0, 7);
    assert list[0..7] == "garbage";
  }

  /** With "foo,bar" allowed, `lpush_info` of foo and bar is logged and of
      garbage is not. */
  lemma AllowedLabelsExample()
    ensures LabelledPushInfo(Config(DEBUG, "foo,bar", EMPTY_STRING), "foo")
    ensures LabelledPushInfo(Config(DEBUG, "foo,bar", EMPTY_STRING), "bar")
    ensures !LabelledPushInfo(Config(DEBUG, "foo,bar", EMPTY_STRING), "garbage")
  {
    FirstOnAllowListExample();
    SecondOnAllowListExample();
    NotOnAllowListExample();
    EmptyListHoldsNothing("foo");
    EmptyListHoldsNothing("bar");
  }
}
