/**
 * The key/value configuration store with defaults merge (`Config_Manager`).
 *
 * The backing JSON file is the state field `file` of a `Store`. Reading it
 * either yields the stored document or fails (the file is absent or does not
 * parse), in which case the store falls back to a copy of its defaults.
 * Whether a write succeeds is an outcome of the file system, passed to each
 * writing method as `writeOk`: a failed write leaves the file as it was.
 */
module ConfigManager {
  import opened Wrappers
  import opened Json

  /** What the backing file holds, as far as the store can tell. */
  datatype File = Absent | Unreadable | Stored(contents: Config)

  /** The keys a `reset_config` call names: `None`, one string, or a list. */
  datatype KeySpec = AllKeys | OneKey(key: string) | KeyList(keys: seq<string>)

  /**
   * The defaults a store is built with: the document in the defaults file
   * when that file is named and parses, otherwise the defaults argument.
   */
  function ResolveDefaults(defaultsName: Option<string>, defaultsFile: File, fallback: Config): (d: Config)
    ensures defaultsName.Some? && defaultsName.value != "" && defaultsFile.Stored? ==> d == defaultsFile.contents
    ensures !(defaultsName.Some? && defaultsName.value != "" && defaultsFile.Stored?) ==> d == fallback
  {
    if defaultsName.Some? && defaultsName.value != "" then
      if defaultsFile.Stored? then defaultsFile.contents else fallback
    else
      fallback
  }

  /** What `load_config` returns for a given file: its document, or the defaults. */
  function Load(file: File, defaults: Config): Config {
    if file.Stored? then file.contents else defaults
  }

  /** The key list a `KeySpec` iterates over; a single string is a one-element list. */
  function KeysOf(spec: KeySpec): seq<string>
    requires !spec.AllKeys?
  {
    if spec.OneKey? then [spec.key] else spec.keys
  }

  /** One iteration of the reset loop: revert to the default, delete, or leave alone. */
  function ResetOne(c: Config, defaults: Config, k: string): Config {
    if k in defaults then c[k := defaults[k]]
    else if k in c then c - {k}
    else c
  }

  /** The reset loop over `ks`, in list order. */
  function ResetEach(c: Config, defaults: Config, ks: seq<string>): Config
    decreases |ks|
  {
    if ks == [] then c
    else ResetOne(ResetEach(c, defaults, ks[..|ks| - 1]), defaults, ks[|ks| - 1])
  }

  /** What the stored document becomes after `reset_config(keys)` on document `c`. */
  function ResetResult(c: Config, defaults: Config, spec: KeySpec): Config {
    if spec.AllKeys? then defaults else ResetEach(c, defaults, KeysOf(spec))
  }

  /**
   * A loop-free description of a key reset: a listed key takes its default
   * or disappears; an unlisted key keeps what it had.
   */
  function ResetReference(c: Config, defaults: Config, ks: seq<string>): Config {
    map k | k in c.Keys + defaults.Keys && (if k in ks then k in defaults else k in c)
      :: if k in ks then defaults[k] else c[k]
  }

  /** The reset loop computes the loop-free description. */
  lemma {:induction false} ResetEachIsReference(c: Config, defaults: Config, ks: seq<string>)
    ensures ResetEach(c, defaults, ks) == ResetReference(c, defaults, ks)
    decreases |ks|
  {
    if ks != [] {
      var init, k := ks[..|ks| - 1], ks[|ks| - 1];
      assert ks == init + [k];
      ResetEachIsReference(c, defaults, init);
      var before := ResetReference(c, defaults, init);
      var after := ResetOne(before, defaults, k);
      var want := ResetReference(c, defaults, ks);
      forall j
        ensures j in after <==> j in want
        ensures j in after ==> after[j] == want[j]
      {
        assert j in ks <==> j in init || j == k;
      }
      assert after == want;
    }
  }

  /** Listed keys take their default or are removed; nothing else changes; no key is invented. */
  lemma ResetEachEffect(c: Config, defaults: Config, ks: seq<string>)
    ensures forall k :: k in ks && k in defaults ==>
      k in ResetEach(c, defaults, ks) && ResetEach(c, defaults, ks)[k] == defaults[k]
    ensures forall k :: k in ks && k !in defaults ==> k !in ResetEach(c, defaults, ks)
    ensures forall k :: k !in ks ==>
      (k in ResetEach(c, defaults, ks) <==> k in c) &&
      (k in c ==> ResetEach(c, defaults, ks)[k] == c[k])
    ensures ResetEach(c, defaults, ks).Keys <= c.Keys + defaults.Keys
  {
    ResetEachIsReference(c, defaults, ks);
  }

  /** Resetting the same keys twice gives what resetting them once gives. */
  lemma ResetEachIdempotent(c: Config, defaults: Config, ks: seq<string>)
    ensures ResetEach(ResetEach(c, defaults, ks), defaults, ks) == ResetEach(c, defaults, ks)
  {
    var once := ResetEach(c, defaults, ks);
    ResetEachIsReference(c, defaults, ks);
    ResetEachIsReference(once, defaults, ks);
    var twice := ResetReference(once, defaults, ks);
    forall j
      ensures j in twice <==> j in once
      ensures j in twice ==> twice[j] == once[j]
    {
    }
    assert twice == once;
  }

  /** `reset_config` as a whole is idempotent, whatever keys it is given. */
  lemma ResetResultIdempotent(c: Config, defaults: Config, spec: KeySpec)
    ensures ResetResult(ResetResult(c, defaults, spec), defaults, spec) == ResetResult(c, defaults, spec)
  {
    if !spec.AllKeys? {
      ResetEachIdempotent(c, defaults, KeysOf(spec));
    }
  }

  /** `reset_config(None)` restores the defaults; a single key is the one-element list. */
  lemma ResetResultCases(c: Config, defaults: Config, k: string)
    ensures ResetResult(c, defaults, AllKeys) == defaults
    ensures ResetResult(c, defaults, OneKey(k)) == ResetResult(c, defaults, KeyList([k]))
    ensures ResetResult(c, defaults, OneKey(k)) == ResetOne(c, defaults, k)
  {
    assert [k][..0] == [];
    assert ResetEach(c, defaults, [k]) == ResetOne(ResetEach(c, defaults, []), defaults, k);
  }

  class Store {
    /** `default_config`, fixed at construction. */
    const defaults: Config
    /** The contents of the backing file. */
    var file: File

    /** The document `load_config` would return now. */
    function Loaded(): Config
      reads this
    {
      Load(file, defaults)
    }

    /**
     * `Config_Manager(filename, default_config_file, default_config)`: fixes the
     * defaults, and when the backing file does not exist saves the defaults into it.
     */
    constructor (defaultsName: Option<string>, defaultsFile: File, fallback: Config, existing: File, writeOk: bool)
      ensures defaults == ResolveDefaults(defaultsName, defaultsFile, fallback)
      ensures file == if existing.Absent? && writeOk then Stored(defaults) else existing
      ensures existing.Absent? ==> Loaded() == defaults
    {
      defaults := ResolveDefaults(defaultsName, defaultsFile, fallback);
      file := existing;
      new;
      if file.Absent? {
        var _ := SaveConfig(defaults, writeOk);
        assert defaults + defaults == defaults;
      }
    }

    /** `load_config`. */
    method LoadConfig() returns (config: Config)
      ensures file.Stored? ==> config == file.contents
      ensures !file.Stored? ==> config == defaults
    {
      match file
      case Stored(contents) =>
        config := contents;
      case _ =>
        config := defaults;
    }

    /**
     * `save_config(update)`: merges `update` into the loaded document (later
     * keys win, as `dict.update` does) and writes the result back. When the
     * write fails the file is unchanged and a copy of the defaults is returned.
     */
    method SaveConfig(update: Config, writeOk: bool) returns (saved: Config)
      modifies this
      ensures file == if writeOk then Stored(old(Loaded()) + update) else old(file)
      ensures saved == if writeOk then old(Loaded()) + update else defaults
      ensures writeOk ==> forall k :: k in old(Loaded()) && k !in update ==>
        k in Loaded() && Loaded()[k] == old(Loaded())[k]
    {
      var current := LoadConfig();
      current := current + update;
      if writeOk {
        file := Stored(current);
        saved := current;
      } else {
        saved := defaults;
      }
    }

    /** `get_config(key, default)`: the loaded value for `key`, or `default`. */
    method GetConfig(key: string, default: Value) returns (v: Value)
      ensures key in Loaded() ==> v == Loaded()[key]
      ensures key !in Loaded() ==> v == default
    {
      var config := LoadConfig();
      v := Get(config, key, default);
    }

    /** `set_config(key, value)`: a one-key merge, so every other key is kept. */
    method SetConfig(key: string, value: Value, writeOk: bool) returns (saved: Config)
      modifies this
      ensures writeOk ==> Loaded() == old(Loaded())[key := value]
      ensures writeOk ==> key in Loaded() && Loaded()[key] == value
      ensures writeOk ==> forall k :: k != key ==>
        (k in Loaded() <==> k in old(Loaded())) && (k in Loaded() ==> Loaded()[k] == old(Loaded())[k])
      ensures !writeOk ==> file == old(file)
    {
      saved := SaveConfig(map[key := value], writeOk);
      assert writeOk ==> Loaded() == old(Loaded())[key := value];
    }

    /**
     * `reset_config(keys)`: with no keys, writes the defaults over the file;
     * otherwise loads the document, walks the key list, and writes the result.
     */
    method ResetConfig(keys: KeySpec, writeOk: bool)
      modifies this
      ensures file == if writeOk then Stored(ResetResult(old(Loaded()), defaults, keys)) else old(file)
    {
      if keys.AllKeys? {
        if writeOk {
          file := Stored(defaults);
        }
        return;
      }
      var config := LoadConfig();
      var toReset := KeysOf(keys);
      for i := 0 to |toReset|
        invariant config == ResetEach(old(Loaded()), defaults, toReset[..i])
        invariant file == old(file)
      {
        var k := toReset[i];
        assert toReset[..i + 1][..i] == toReset[..i];
        if k in defaults {
          config := config[k := defaults[k]];
        } else if k in config {
          config := config - {k};
        }
      }
      assert toReset[..|toReset|] == toReset;
      if writeOk {
        file := Stored(config);
      }
    }
  }
}
