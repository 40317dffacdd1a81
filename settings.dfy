/**
  The application settings: one `SETTINGS` section of text values read
  through typed getters, written back as text, checked as a whole when the
  file is loaded and replaced by the defaults when the check fails.
 */
module Settings {
  import opened Wrappers
  import opened Text

  const SettingsSection: string := "SETTINGS"

  /** The sections of the parsed configuration file, each a map from key to text. */
  type Section = map<string, string>
  type Config = map<string, Section>

  const CooldownKey: string := "automatic_backup_cooldown_seconds"
  const MaxPreRestoreKey: string := "max_pre_restore_backups"
  const PreRestoreCooldownKey: string := "pre_restore_backup_cooldown_seconds"
  const UndoTimeoutKey: string := "undo_cache_timeout_seconds"
  const LogLevelKey: string := "log_level"
  const DefaultLogLevel: string := "WARNING"

  const ValidLogLevels: seq<string> := ["DEBUG", "INFO", "WARNING", "ERROR"]
  const ValidThemes: seq<string> := ["Claro", "Oscuro"]
  const TrueWords: seq<string> := ["true", "yes", "1", "on"]
  const FalseWords: seq<string> := ["false", "no", "0", "off"]

  /** Settings that must hold an integer above zero. */
  const PositiveIntKeys: seq<string> :=
    ["estudios_por_pagina", "files_per_page", "analysis_items_per_page", "discrete_tables_per_page", "backups_per_page"]

  /** Settings that must hold a boolean word (or nothing). */
  const BooleanKeys: seq<string> :=
    ["show_factory_reset_button", "enable_hover_tooltips", "enable_automatic_backups",
     "enable_manual_backups", "enable_pre_restore_backups", "enable_undo_delete"]

  /** The default `SETTINGS` section. */
  const DefaultSection: Section := map[
    "estudios_por_pagina" := "10",
    "files_per_page" := "10",
    "analysis_items_per_page" := "10",
    "discrete_tables_per_page" := "10",
    "font_scale" := "1.0",
    "theme" := "Claro",
    "show_factory_reset_button" := "False",
    "enable_hover_tooltips" := "True",
    "max_automatic_backups" := "10",
    "max_manual_backups" := "10",
    "automatic_backup_cooldown_seconds" := "60",
    "backups_per_page" := "10",
    "enable_automatic_backups" := "True",
    "enable_manual_backups" := "True",
    "enable_pre_restore_backups" := "True",
    "max_pre_restore_backups" := "10",
    "pre_restore_backup_cooldown_seconds" := "60",
    "enable_undo_delete" := "False",
    "undo_cache_timeout_seconds" := "300",
    "log_level" := "WARNING"
  ]

  function DefaultConfig(): Config
  {
    map[SettingsSection := DefaultSection]
  }

  // ===========================================================================
  // Reading values
  // ===========================================================================

  /** `get_setting` without a fallback: the stored text, if the section and key exist. */
  function Lookup(config: Config, key: string): (r: Option<string>)
    ensures r.Some? <==> SettingsSection in config && key in config[SettingsSection]
    ensures r.Some? ==> r.value == config[SettingsSection][key]
  {
    if SettingsSection in config && key in config[SettingsSection] then Some(config[SettingsSection][key])
    else None
  }

  /** `get_int_setting`: the stored integer, or the fallback when the key is
      missing or its text is not an integer. */
  function IntSetting(config: Config, key: string, fallback: int): (r: int)
    ensures Lookup(config, key).None? ==> r == fallback
    ensures Lookup(config, key).Some? && ParseInt(Lookup(config, key).value).None? ==> r == fallback
    ensures Lookup(config, key).Some? && ParseInt(Lookup(config, key).value).Some? ==>
              r == ParseInt(Lookup(config, key).value).value
  {
    match Lookup(config, key)
    case None => fallback
    case Some(text) => ParseInt(text).GetOr(fallback)
  }

  /** A boolean word in any case: `true/yes/1/on` or `false/no/0/off`. */
  function ParseBool(s: string): (r: Option<bool>)
    ensures r == Some(true) <==> Lower(s) in TrueWords
    ensures r == Some(false) <==> Lower(s) in FalseWords
    ensures r.None? <==> Lower(s) !in TrueWords && Lower(s) !in FalseWords
  {
    if Lower(s) in TrueWords then Some(true)
    else if Lower(s) in FalseWords then Some(false)
    else None
  }

  /** `get_bool_setting`: the stored boolean word, or the fallback when the key
      is missing or its text is not a boolean word. */
  function BoolSetting(config: Config, key: string, fallback: bool): (r: bool)
    ensures Lookup(config, key).None? ==> r == fallback
    ensures Lookup(config, key).Some? ==> r == ParseBool(Lookup(config, key).value).GetOr(fallback)
  {
    match Lookup(config, key)
    case None => fallback
    case Some(text) => ParseBool(text).GetOr(fallback)
  }

  /** `str(b)` for a boolean. */
  function BoolText(b: bool): string
  {
    if b then "True" else "False"
  }

  /** A boolean written as text reads back as itself. */
  lemma ParseBoolText(b: bool)
    ensures ParseBool(BoolText(b)) == Some(b)
  {
    if b {
      assert Lower("True") == "true";
    } else {
      assert Lower("False") == "false";
    }
  }

  // ===========================================================================
  // Writing values
  // ===========================================================================

  /** The configuration after `set_setting`: the section is created when
      missing and the key takes the text. */
  function WithSetting(config: Config, key: string, value: string): (r: Config)
    ensures Lookup(r, key) == Some(value)
    ensures forall k :: k != key ==> Lookup(r, k) == Lookup(config, k)
    ensures forall s :: s != SettingsSection ==> (s in r <==> s in config) && (s in config ==> r[s] == config[s])
  {
    var section := if SettingsSection in config then config[SettingsSection] else map[];
    config[SettingsSection := section[key := value]]
  }

  /** A written integer reads back as itself. */
  lemma IntSettingWritten(config: Config, key: string, value: int, fallback: int)
    ensures IntSetting(WithSetting(config, key, IntToString(value)), key, fallback) == value
  {
    ParseIntToString(value);
  }

  /** A written boolean reads back as itself. */
  lemma BoolSettingWritten(config: Config, key: string, value: bool, fallback: bool)
    ensures BoolSetting(WithSetting(config, key, BoolText(value)), key, fallback) == value
  {
    ParseBoolText(value);
  }

  // ===========================================================================
  // Settings with a lower bound
  // ===========================================================================

  /** A getter with a lower bound: a stored value below `min` gives the default,
      as does a missing or unreadable one. */
  function BoundedIntSetting(config: Config, key: string, min: int, default: int): (r: int)
    requires default >= min
    ensures r >= min
    ensures IntSetting(config, key, default) >= min ==> r == IntSetting(config, key, default)
    ensures IntSetting(config, key, default) < min ==> r == default
  {
    var value := IntSetting(config, key, default);
    if value < min then default else value
  }

  /** The text a bounded setter writes: `min` for a value below it. */
  function BoundedText(value: int, min: int): (r: string)
    ensures ParseInt(r) == Some(if value < min then min else value)
  {
    ParseIntToString(if value < min then min else value);
    IntToString(if value < min then min else value)
  }

  /** What a bounded setter writes, the bounded getter reads back: the value,
      raised to `min` when below it. */
  lemma BoundedRoundTrip(config: Config, key: string, value: int, min: int, default: int)
    requires default >= min
    ensures BoundedIntSetting(WithSetting(config, key, BoundedText(value, min)), key, min, default) ==
              if value < min then min else value
  {
  }

  /** `automatic_backup_cooldown_seconds`: never negative; 60 otherwise. */
  function AutomaticBackupCooldown(config: Config): (r: int)
    ensures r >= 0
  {
    BoundedIntSetting(config, CooldownKey, 0, 60)
  }

  /** `max_pre_restore_backups`: at least 1; 10 otherwise. */
  function MaxPreRestoreBackups(config: Config): (r: int)
    ensures r >= 1
  {
    BoundedIntSetting(config, MaxPreRestoreKey, 1, 10)
  }

  /** `pre_restore_backup_cooldown_seconds`: never negative; 60 otherwise. */
  function PreRestoreCooldown(config: Config): (r: int)
    ensures r >= 0
  {
    BoundedIntSetting(config, PreRestoreCooldownKey, 0, 60)
  }

  /** `undo_cache_timeout_seconds`: never negative; 300 otherwise. */
  function UndoCacheTimeout(config: Config): (r: int)
    ensures r >= 0
  {
    BoundedIntSetting(config, UndoTimeoutKey, 0, 300)
  }

  /** `enable_automatic_backups`: off when missing or unreadable. */
  function EnableAutomaticBackups(config: Config): bool
  {
    BoolSetting(config, "enable_automatic_backups", false)
  }

  /** `max_automatic_backups`: the stored integer, 4 otherwise. */
  function MaxAutomaticBackups(config: Config): int
  {
    IntSetting(config, "max_automatic_backups", 4)
  }

  /** `enable_manual_backups`: off when missing or unreadable. */
  function EnableManualBackups(config: Config): bool
  {
    BoolSetting(config, "enable_manual_backups", false)
  }

  /** `max_manual_backups`: the stored integer, 4 otherwise. */
  function MaxManualBackups(config: Config): int
  {
    IntSetting(config, "max_manual_backups", 4)
  }

  /** `enable_pre_restore_backups`: on when missing or unreadable. */
  function EnablePreRestoreBackups(config: Config): bool
  {
    BoolSetting(config, "enable_pre_restore_backups", true)
  }

  // ===========================================================================
  // Log level
  // ===========================================================================

  /** `log_level`: the stored level upper-cased, or WARNING when it is missing
      or not one of the four levels. */
  function LogLevel(config: Config): (r: string)
    ensures r in ValidLogLevels
    ensures Lookup(config, LogLevelKey).None? ==> r == DefaultLogLevel
    ensures Lookup(config, LogLevelKey).Some? ==>
              var level := Upper(Lookup(config, LogLevelKey).value);
              (level in ValidLogLevels ==> r == level) && (level !in ValidLogLevels ==> r == DefaultLogLevel)
  {
    var level := Upper(if Lookup(config, LogLevelKey).Some? then Lookup(config, LogLevelKey).value else DefaultLogLevel);
    assert Upper(DefaultLogLevel) == DefaultLogLevel;
    if level in ValidLogLevels then level else DefaultLogLevel
  }

  /** A valid level written upper-cased is the level read back. */
  lemma LogLevelRoundTrip(config: Config, value: string)
    requires Upper(value) in ValidLogLevels
    ensures LogLevel(WithSetting(config, LogLevelKey, Upper(value))) == Upper(value)
  {
    UpperIdempotent(value);
  }

  // ===========================================================================
  // Checking a loaded file
  // ===========================================================================

  /** The stored text of a key, or empty. */
  function TextOr(config: Config, key: string): string
  {
    if Lookup(config, key).Some? then Lookup(config, key).value else ""
  }

  /** A maximum that must be positive while its kind of backup is enabled and
      at least `floor` otherwise. */
  predicate MaxWhenEnabled(config: Config, enableKey: string, maxKey: string, floor: int)
  {
    if BoolSetting(config, enableKey, false) then IntSetting(config, maxKey, -1) > 0
    else IntSetting(config, maxKey, -1) >= floor
  }

  /** The raw text of a boolean key is a boolean word, or empty. */
  predicate BooleanTextOk(config: Config, key: string)
  {
    Lookup(config, key).Some? &&
    (Lower(Lookup(config, key).value) in TrueWords || Lower(Lookup(config, key).value) in FalseWords ||
     Lookup(config, key).value == "")
  }

  /** `_validate_loaded_config`. `fontScalePositive` is whether the stored
      `font_scale` reads as a float above zero. */
  predicate ValidConfig(config: Config, fontScalePositive: bool)
  {
    SettingsSection in config &&
    config[SettingsSection].Keys == DefaultSection.Keys &&
    (forall i :: 0 <= i < |PositiveIntKeys| ==> IntSetting(config, PositiveIntKeys[i], -1) > 0) &&
    MaxWhenEnabled(config, "enable_automatic_backups", "max_automatic_backups", 0) &&
    MaxWhenEnabled(config, "enable_manual_backups", "max_manual_backups", 0) &&
    IntSetting(config, CooldownKey, -1) >= 0 &&
    MaxWhenEnabled(config, "enable_pre_restore_backups", MaxPreRestoreKey, 1) &&
    IntSetting(config, PreRestoreCooldownKey, -1) >= 0 &&
    IntSetting(config, UndoTimeoutKey, -1) >= 0 &&
    fontScalePositive &&
    TextOr(config, "theme") in ValidThemes &&
    Upper(TextOr(config, LogLevelKey)) in ValidLogLevels &&
    (forall i :: 0 <= i < |BooleanKeys| ==> BooleanTextOk(config, BooleanKeys[i]))
  }

  /** A loaded file passes only with exactly the default keys. */
  lemma ValidConfigKeys(config: Config, fontScalePositive: bool)
    requires ValidConfig(config, fontScalePositive)
    ensures SettingsSection in config && config[SettingsSection].Keys == DefaultSection.Keys
  {
  }

  /** In a file that passed the check the bounded getters and the log level
      read the stored values, never their fallbacks. */
  lemma ValidConfigGetters(config: Config, fontScalePositive: bool)
    requires ValidConfig(config, fontScalePositive)
    ensures AutomaticBackupCooldown(config) == ParseInt(config[SettingsSection][CooldownKey]).value
    ensures PreRestoreCooldown(config) == ParseInt(config[SettingsSection][PreRestoreCooldownKey]).value
    ensures UndoCacheTimeout(config) == ParseInt(config[SettingsSection][UndoTimeoutKey]).value
    ensures LogLevel(config) == Upper(config[SettingsSection][LogLevelKey])
  {
    assert CooldownKey in DefaultSection.Keys && PreRestoreCooldownKey in DefaultSection.Keys;
    assert UndoTimeoutKey in DefaultSection.Keys && LogLevelKey in DefaultSection.Keys;
  }

  lemma DefaultBool(key: string, b: bool)
    requires key in DefaultSection && DefaultSection[key] == BoolText(b)
    ensures BoolSetting(DefaultConfig(), key, false) == b && BooleanTextOk(DefaultConfig(), key)
  {
    ParseBoolText(b);
  }

  /** A default stored as `IntToString(v)` reads as `v`. */
  lemma DefaultInt(key: string, v: int)
    requires key in DefaultSection && DefaultSection[key] == IntToString(v)
    ensures IntSetting(DefaultConfig(), key, -1) == v
  {
    ParseIntToString(v);
  }

  lemma DefaultTen(key: string)
    requires key in DefaultSection && DefaultSection[key] == "10"
    ensures IntSetting(DefaultConfig(), key, -1) == 10
  {
    assert IntToString(10) == "10";
    DefaultInt(key, 10);
  }

  lemma DefaultPageLookups()
    ensures forall i :: 0 <= i < |PositiveIntKeys| ==>
              PositiveIntKeys[i] in DefaultSection && DefaultSection[PositiveIntKeys[i]] == "10"
  {
  }

  lemma DefaultPageSizes()
    ensures forall i :: 0 <= i < |PositiveIntKeys| ==> IntSetting(DefaultConfig(), PositiveIntKeys[i], -1) > 0
  {
    DefaultPageLookups();
    forall i | 0 <= i < |PositiveIntKeys|
      ensures IntSetting(DefaultConfig(), PositiveIntKeys[i], -1) > 0
    {
      DefaultTen(PositiveIntKeys[i]);
    }
  }

  lemma DefaultMaximaLookups()
    ensures "max_automatic_backups" in DefaultSection && DefaultSection["max_automatic_backups"] == "10"
    ensures "max_manual_backups" in DefaultSection && DefaultSection["max_manual_backups"] == "10"
    ensures MaxPreRestoreKey in DefaultSection && DefaultSection[MaxPreRestoreKey] == "10"
  {
  }

  lemma DefaultMaxima()
    ensures IntSetting(DefaultConfig(), "max_automatic_backups", -1) > 0
    ensures IntSetting(DefaultConfig(), "max_manual_backups", -1) > 0
    ensures IntSetting(DefaultConfig(), MaxPreRestoreKey, -1) > 0
  {
    DefaultMaximaLookups();
    DefaultTen("max_automatic_backups");
    DefaultTen("max_manual_backups");
    DefaultTen(MaxPreRestoreKey);
  }

  lemma DefaultTimesLookups()
    ensures CooldownKey in DefaultSection && DefaultSection[CooldownKey] == "60"
    ensures PreRestoreCooldownKey in DefaultSection && DefaultSection[PreRestoreCooldownKey] == "60"
    ensures UndoTimeoutKey in DefaultSection && DefaultSection[UndoTimeoutKey] == "300"
  {
  }

  lemma DefaultTimes()
    ensures IntSetting(DefaultConfig(), CooldownKey, -1) >= 0
    ensures IntSetting(DefaultConfig(), PreRestoreCooldownKey, -1) >= 0
    ensures IntSetting(DefaultConfig(), UndoTimeoutKey, -1) >= 0
  {
    DefaultTimesLookups();
    assert IntToString(60) == "60" && IntToString(300) == "300";
    DefaultInt(CooldownKey, 60);
    DefaultInt(PreRestoreCooldownKey, 60);
    DefaultInt(UndoTimeoutKey, 300);
  }

  lemma DefaultBooleanLookups()
    ensures forall i :: 0 <= i < |BooleanKeys| ==> BooleanKeys[i] in DefaultSection
    ensures DefaultSection["show_factory_reset_button"] == "False" && DefaultSection["enable_hover_tooltips"] == "True"
    ensures DefaultSection["enable_automatic_backups"] == "True" && DefaultSection["enable_manual_backups"] == "True"
    ensures DefaultSection["enable_pre_restore_backups"] == "True" && DefaultSection["enable_undo_delete"] == "False"
  {
  }

  lemma DefaultBooleans()
    ensures forall i :: 0 <= i < |BooleanKeys| ==> BooleanTextOk(DefaultConfig(), BooleanKeys[i])
    ensures BoolSetting(DefaultConfig(), "enable_automatic_backups", false)
    ensures BoolSetting(DefaultConfig(), "enable_manual_backups", false)
    ensures BoolSetting(DefaultConfig(), "enable_pre_restore_backups", false)
  {
    DefaultBooleanLookups();
    DefaultBool("show_factory_reset_button", false);
    DefaultBool("enable_hover_tooltips", true);
    DefaultBool("enable_automatic_backups", true);
    DefaultBool("enable_manual_backups", true);
    DefaultBool("enable_pre_restore_backups", true);
    DefaultBool("enable_undo_delete", false);
  }

  lemma DefaultTexts()
    ensures TextOr(DefaultConfig(), "theme") in ValidThemes
    ensures Upper(TextOr(DefaultConfig(), LogLevelKey)) in ValidLogLevels
  {
    assert TextOr(DefaultConfig(), LogLevelKey) == "WARNING";
    assert Upper("WARNING") == "WARNING";
  }

  /** The defaults pass the check, so a reset file is loaded as written. */
  lemma DefaultsValid()
    ensures ValidConfig(DefaultConfig(), true)
  {
    DefaultPageSizes();
    DefaultMaxima();
    DefaultTimes();
    DefaultBooleans();
    DefaultTexts();
  }

  // ===========================================================================
  // The settings object
  // ===========================================================================

  class AppSettings {
    var config: Config

    /** `load_settings` on the file's contents (`None` when the file does not
        parse): a file that fails the check is replaced by the defaults. */
    constructor Load(read: Option<Config>, fontScalePositive: bool)
      ensures read.Some? && ValidConfig(read.value, fontScalePositive) ==> config == read.value
      ensures !(read.Some? && ValidConfig(read.value, fontScalePositive)) ==> config == DefaultConfig()
    {
      if read.Some? && ValidConfig(read.value, fontScalePositive) {
        config := read.value;
      } else {
        config := DefaultConfig();
      }
    }

    /** `reset_to_defaults`. */
    method ResetToDefaults()
      modifies this
      ensures config == DefaultConfig()
    {
      config := DefaultConfig();
    }

    /** `set_setting`. */
    method SetSetting(key: string, value: string)
      modifies this
      ensures config == WithSetting(old(config), key, value)
    {
      if SettingsSection !in config {
        config := config[SettingsSection := map[]];
      }
      config := config[SettingsSection := config[SettingsSection][key := value]];
    }

    /** The setter of a bounded setting: a value below `min` is stored as `min`. */
    method SetBounded(key: string, value: int, min: int)
      modifies this
      ensures config == WithSetting(old(config), key, BoundedText(value, min))
    {
      if value < min {
        SetSetting(key, IntToString(min));
      } else {
        SetSetting(key, IntToString(value));
      }
    }

    /** The `automatic_backup_cooldown_seconds` setter: a negative value is stored as 0. */
    method SetAutomaticBackupCooldown(value: int)
      modifies this
      ensures config == WithSetting(old(config), CooldownKey, BoundedText(value, 0))
      ensures AutomaticBackupCooldown(config) == if value < 0 then 0 else value
    {
      SetBounded(CooldownKey, value, 0);
      BoundedRoundTrip(old(config), CooldownKey, value, 0, 60);
    }

    /** The `max_pre_restore_backups` setter: a value below 1 is stored as 1. */
    method SetMaxPreRestoreBackups(value: int)
      modifies this
      ensures config == WithSetting(old(config), MaxPreRestoreKey, BoundedText(value, 1))
      ensures MaxPreRestoreBackups(config) == if value < 1 then 1 else value
    {
      SetBounded(MaxPreRestoreKey, value, 1);
      BoundedRoundTrip(old(config), MaxPreRestoreKey, value, 1, 10);
    }

    /** The `pre_restore_backup_cooldown_seconds` setter: a negative value is stored as 0. */
    method SetPreRestoreCooldown(value: int)
      modifies this
      ensures config == WithSetting(old(config), PreRestoreCooldownKey, BoundedText(value, 0))
      ensures PreRestoreCooldown(config) == if value < 0 then 0 else value
    {
      SetBounded(PreRestoreCooldownKey, value, 0);
      BoundedRoundTrip(old(config), PreRestoreCooldownKey, value, 0, 60);
    }

    /** The `undo_cache_timeout_seconds` setter: a negative value is stored as 0. */
    method SetUndoCacheTimeout(value: int)
      modifies this
      ensures config == WithSetting(old(config), UndoTimeoutKey, BoundedText(value, 0))
      ensures UndoCacheTimeout(config) == if value < 0 then 0 else value
    {
      SetBounded(UndoTimeoutKey, value, 0);
      BoundedRoundTrip(old(config), UndoTimeoutKey, value, 0, 300);
    }

    /** The `log_level` setter: a valid level is stored upper-cased; anything
        else changes nothing. */
    method SetLogLevel(value: string)
      modifies this
      ensures Upper(value) in ValidLogLevels ==>
                config == WithSetting(old(config), LogLevelKey, Upper(value)) && LogLevel(config) == Upper(value)
      ensures Upper(value) !in ValidLogLevels ==> config == old(config)
    {
      if Upper(value) in ValidLogLevels {
        SetSetting(LogLevelKey, Upper(value));
        LogLevelRoundTrip(old(config), value);
      }
    }
  }
}
