/** The helper's environment: the isolated overlay, and the signature that
    decides whether a running helper may be reused. */
module EnvSignature {
  import opened Text
  import StdioRpc

  const NUL: char := '\0'

  // -------------------------------------------------------- reading entries

  /** The name of an entry "name=value", if it has one. */
  function Key(entry: string): Option<string> {
    match Index(entry, "=")
    case Some(i) => if i > 0 then Some(entry[..i]) else None
    case None => None
  }

  function Value(entry: string): string
    requires Key(entry).Some?
  {
    entry[Index(entry, "=").value + 1..]
  }

  lemma PairReads(key: string, value: string)
    requires key != "" && '=' !in key
    ensures Key(key + "=" + value) == Some(key) && Value(key + "=" + value) == value
  {
    FirstChar(key, '=', value);
    var s := key + ['='] + value;
    assert key + "=" + value == s;
    assert s[..|key|] == key && s[|key| + 1..] == value;
  }

  /** An entry's name is what comes before its first '=', if anything does, and
      its value all that comes after. */
  lemma KeyExactly(entry: string, key: string)
    ensures Key(entry) == Some(key) <==> key != "" && '=' !in key && key + "=" <= entry
    ensures Key(entry) == Some(key) ==> entry == key + "=" + Value(entry)
  {
    IndexChar(entry, '=');
    if Key(entry) == Some(key) {
      assert entry == key + "=" + Value(entry);
    }
    if key != "" && '=' !in key && key + "=" <= entry {
      PairReads(key, entry[|key| + 1..]);
      assert entry == key + "=" + entry[|key| + 1..];
    }
  }

  /** What a process sees: the last entry of a name wins, and entries without
      a name are no variables. */
  function Env(entries: seq<string>): map<string, string> {
    if entries == [] then map[]
    else
      var e := entries[|entries| - 1];
      var before := Env(entries[..|entries| - 1]);
      match Key(e)
      case None => before
      case Some(k) => before[k := Value(e)]
  }

  lemma {:induction false} LastEntryWins(entries: seq<string>, i: nat)
    requires i < |entries| && Key(entries[i]).Some?
    requires forall j | i < j < |entries| :: Key(entries[j]) != Key(entries[i])
    ensures var k := Key(entries[i]).value; k in Env(entries) && Env(entries)[k] == Value(entries[i])
  {
    var front := entries[..|entries| - 1];
    if i < |front| {
      assert front[i] == entries[i] && forall j | i < j < |front| :: front[j] == entries[j];
      LastEntryWins(front, i);
    }
  }

  lemma {:induction false} OnlyEntriesCount(entries: seq<string>)
    ensures forall k | k in Env(entries) :: exists e :: e in entries && Key(e) == Some(k)
  {
    if entries != [] {
      OnlyEntriesCount(entries[..|entries| - 1]);
      assert entries == entries[..|entries| - 1] + [entries[|entries| - 1]];
    }
  }

  lemma EnvAppend(entries: seq<string>, e: string)
    ensures Env(entries + [e]) == match Key(e) case None => Env(entries) case Some(k) => Env(entries)[k := Value(e)]
  {
    assert (entries + [e])[..|entries|] == entries;
  }

  // -------------------------------------------------------------- overlay

  predicate GoodKeys(fixed: map<string, string>) {
    forall k | k in fixed :: k != "" && '=' !in k
  }

  /** One entry of the environment, as the loop carries it over. */
  function Carried(entry: string, fixed: map<string, string>): Option<string> {
    match Key(entry)
    case None => None
    case Some(k) =>
      if k == "DISPLAY" then None
      else if k in fixed then Some(k + "=" + fixed[k])
      else Some(entry)
  }

  function CarryAll(env: seq<string>, fixed: map<string, string>): seq<string> {
    if env == [] then []
    else
      var before := CarryAll(env[..|env| - 1], fixed);
      match Carried(env[|env| - 1], fixed)
      case None => before
      case Some(e) => before + [e]
  }

  /** The fixed variables the environment had no entry for. */
  function Missing(env: seq<string>, fixed: map<string, string>): set<string> {
    set k | k in fixed && (k == "DISPLAY" || k !in Env(env))
  }

  function Overridden(m: map<string, string>, fixed: map<string, string>): map<string, string> {
    map k | k in m && k != "DISPLAY" :: if k in fixed then fixed[k] else m[k]
  }

  lemma OverriddenUpdate(m: map<string, string>, k: string, v: string, fixed: map<string, string>)
    ensures Overridden(m[k := v], fixed) ==
            if k == "DISPLAY" then Overridden(m, fixed) else Overridden(m, fixed)[k := if k in fixed then fixed[k] else v]
  {
  }

  lemma {:induction false} CarriedReads(env: seq<string>, fixed: map<string, string>)
    requires GoodKeys(fixed)
    ensures Env(CarryAll(env, fixed)) == Overridden(Env(env), fixed)
  {
    if env != [] {
      var before, e := env[..|env| - 1], env[|env| - 1];
      CarriedReads(before, fixed);
      if Key(e).Some? {
        var k := Key(e).value;
        OverriddenUpdate(Env(before), k, Value(e), fixed);
        if k != "DISPLAY" {
          if k in fixed { PairReads(k, fixed[k]); }
          EnvAppend(CarryAll(before, fixed), Carried(e, fixed).value);
        }
      }
    }
  }

  /** The first loop: the entries carried over, and the fixed variables met. */
  method Carry(env: seq<string>, fixed: map<string, string>) returns (out: seq<string>, seen: set<string>)
    requires GoodKeys(fixed)
    ensures out == CarryAll(env, fixed) && seen == fixed.Keys - Missing(env, fixed)
    ensures forall e | e in out :: Key(e).Some?
  {
    out, seen := [], {};
    for i := 0 to |env|
      invariant out == CarryAll(env[..i], fixed)
      invariant forall e | e in out :: Key(e).Some?
      invariant forall k :: k in seen <==> k in fixed && k != "DISPLAY" && k in Env(env[..i])
    {
      var entry := env[i];
      assert env[..i + 1][..i] == env[..i];
      match Index(entry, "=")
      case None =>
      case Some(n) =>
        if n > 0 {
          var key := entry[..n];
          if key != "DISPLAY" {
            if key in fixed {
              PairReads(key, fixed[key]);
              out := out + [key + "=" + fixed[key]];
              seen := seen + {key};
            } else {
              out := out + [entry];
            }
          }
        }
    }
    assert env[..|env|] == env;
  }

  ghost function Pairs(keys: set<string>, fixed: map<string, string>): set<string>
    requires keys <= fixed.Keys
  {
    set k | k in keys :: k + "=" + fixed[k]
  }

  ghost function WithFixed(m: map<string, string>, keys: set<string>, fixed: map<string, string>): map<string, string>
    requires keys <= fixed.Keys
  {
    map k | k in m.Keys + keys :: if k in keys then fixed[k] else m[k]
  }

  /** out is carried with one entry appended for each of these variables. */
  ghost predicate Extends(out: seq<string>, carried: seq<string>, keys: set<string>, fixed: map<string, string>)
    requires keys <= fixed.Keys
  {
    && multiset(out) == multiset(carried) + multiset(Pairs(keys, fixed))
    && Env(out) == WithFixed(Env(carried), keys, fixed)
    && forall e | e in out :: e in carried || Key(e).Some?
  }

  lemma PairsOneMore(keys: set<string>, key: string, fixed: map<string, string>)
    requires GoodKeys(fixed) && keys <= fixed.Keys && key in fixed && key !in keys
    ensures multiset(Pairs(keys + {key}, fixed)) == multiset(Pairs(keys, fixed)) + multiset{key + "=" + fixed[key]}
  {
    var e := key + "=" + fixed[key];
    PairReads(key, fixed[key]);
    forall k | k in keys ensures k + "=" + fixed[k] != e {
      PairReads(k, fixed[k]);
    }
    assert e !in Pairs(keys, fixed);
    assert Pairs(keys + {key}, fixed) == Pairs(keys, fixed) + {e};
  }

  ghost function Unseen(keys: seq<string>, seen: set<string>): set<string> {
    set k | k in keys && k !in seen
  }

  lemma UnseenOneMore(keys: seq<string>, seen: set<string>)
    requires keys != [] && AllDifferent(keys)
    ensures var front, key := keys[..|keys| - 1], keys[|keys| - 1];
            && key !in Unseen(front, seen)
            && Unseen(keys, seen) == if key in seen then Unseen(front, seen) else Unseen(front, seen) + {key}
  {
    assert keys == keys[..|keys| - 1] + [keys[|keys| - 1]];
  }

  /** The entries carried over, followed by one for each name not seen. */
  function WithUnseen(carried: seq<string>, keys: seq<string>, seen: set<string>, fixed: map<string, string>): seq<string>
    requires forall k | k in keys :: k in fixed
  {
    if keys == [] then carried
    else
      var before, key := WithUnseen(carried, keys[..|keys| - 1], seen, fixed), keys[|keys| - 1];
      if key in seen then before else before + [key + "=" + fixed[key]]
  }

  lemma {:induction false} WithUnseenReads(carried: seq<string>, keys: seq<string>, seen: set<string>, fixed: map<string, string>)
    requires GoodKeys(fixed) && (forall k | k in keys :: k in fixed) && AllDifferent(keys)
    ensures Unseen(keys, seen) <= fixed.Keys
    ensures Env(WithUnseen(carried, keys, seen, fixed)) == WithFixed(Env(carried), Unseen(keys, seen), fixed)
  {
    if keys == [] {
      assert Unseen(keys, seen) == {};
      assert WithFixed(Env(carried), {}, fixed) == Env(carried);
    } else {
      var front, key := keys[..|keys| - 1], keys[|keys| - 1];
      WithUnseenReads(carried, front, seen, fixed);
      UnseenOneMore(keys, seen);
      if key !in seen {
        PairReads(key, fixed[key]);
        EnvAppend(WithUnseen(carried, front, seen, fixed), key + "=" + fixed[key]);
        WithFixedOneMore(Env(carried), Unseen(front, seen), key, fixed);
      }
    }
  }

  lemma WithFixedOneMore(m: map<string, string>, keys: set<string>, key: string, fixed: map<string, string>)
    requires keys <= fixed.Keys && key in fixed
    ensures WithFixed(m, keys + {key}, fixed) == WithFixed(m, keys, fixed)[key := fixed[key]]
  {
  }

  lemma {:induction false} WithUnseenHolds(carried: seq<string>, keys: seq<string>, seen: set<string>, fixed: map<string, string>)
    requires GoodKeys(fixed) && (forall k | k in keys :: k in fixed) && AllDifferent(keys)
    ensures Unseen(keys, seen) <= fixed.Keys
    ensures multiset(WithUnseen(carried, keys, seen, fixed)) == multiset(carried) + multiset(Pairs(Unseen(keys, seen), fixed))
  {
    if keys == [] {
      assert Unseen(keys, seen) == {} && Pairs({}, fixed) == {};
    } else {
      var front, key := keys[..|keys| - 1], keys[|keys| - 1];
      WithUnseenHolds(carried, front, seen, fixed);
      UnseenOneMore(keys, seen);
      if key !in seen { PairsOneMore(Unseen(front, seen), key, fixed); }
    }
  }

  lemma {:induction false} WithUnseenNamed(carried: seq<string>, keys: seq<string>, seen: set<string>, fixed: map<string, string>)
    requires GoodKeys(fixed) && forall k | k in keys :: k in fixed
    ensures forall e | e in WithUnseen(carried, keys, seen, fixed) :: e in carried || Key(e).Some?
  {
    if keys != [] {
      var key := keys[|keys| - 1];
      WithUnseenNamed(carried, keys[..|keys| - 1], seen, fixed);
      PairReads(key, fixed[key]);
    }
  }

  /** The second loop, over the map. */
  method AddMissing(carried: seq<string>, seen: set<string>, fixed: map<string, string>) returns (out: seq<string>)
    requires GoodKeys(fixed)
    ensures Extends(out, carried, fixed.Keys - seen, fixed)
  {
    out := carried;
    var keys := KeysInSomeOrder(fixed.Keys);
    NoRepeats(keys, fixed.Keys);
    for j := 0 to |keys|
      invariant out == WithUnseen(carried, keys[..j], seen, fixed)
    {
      var key := keys[j];
      assert keys[..j + 1][..j] == keys[..j];
      if key !in seen {
        out := out + [key + "=" + fixed[key]];
      }
    }
    assert keys[..|keys|] == keys;
    WithUnseenAll(carried, keys, seen, fixed);
  }

  lemma WithUnseenAll(carried: seq<string>, keys: seq<string>, seen: set<string>, fixed: map<string, string>)
    requires GoodKeys(fixed) && AllDifferent(keys) && forall k :: k in keys <==> k in fixed
    ensures Extends(WithUnseen(carried, keys, seen, fixed), carried, fixed.Keys - seen, fixed)
  {
    WithUnseenReads(carried, keys, seen, fixed);
    WithUnseenHolds(carried, keys, seen, fixed);
    WithUnseenNamed(carried, keys, seen, fixed);
    assert Unseen(keys, seen) == fixed.Keys - seen;
  }

  /** The overlay.  Read back, the result is the environment without DISPLAY,
      overridden by the fixed variables, whatever the order in which the
      runtime walks the map. */
  method Overlay(env: seq<string>, fixed: map<string, string>) returns (out: seq<string>)
    requires GoodKeys(fixed)
    ensures Env(out) == (Env(env) - {"DISPLAY"}) + fixed
    ensures forall e | e in out :: Key(e).Some?
    ensures multiset(out) == multiset(CarryAll(env, fixed)) + multiset(Pairs(Missing(env, fixed), fixed))
  {
    var carried, seen := Carry(env, fixed);
    out := AddMissing(carried, seen, fixed);
    CarriedReads(env, fixed);
    assert fixed.Keys - seen == Missing(env, fixed);
    OverlayIsOverride(Env(env), Missing(env, fixed), fixed);
  }

  lemma OverlayIsOverride(m: map<string, string>, missing: set<string>, fixed: map<string, string>)
    requires missing == set k | k in fixed && (k == "DISPLAY" || k !in m)
    ensures WithFixed(Overridden(m, fixed), missing, fixed) == (m - {"DISPLAY"}) + fixed
  {
  }

  /** The places the overlay is built from: paths below the home and runtime
      directories. */
  datatype Desktop = Desktop(display: string, runtimeDir: string, pointerSocket: string, headlessBin: string, localBin: string)

  const DEFAULT_PATH := "/usr/local/sbin:/usr/local/bin:/usr/bin"

  function SessionPairs(d: Desktop, path: string): seq<(string, string)> {
    [
      ("WAYLAND_DISPLAY", d.display),
      ("XDG_RUNTIME_DIR", d.runtimeDir),
      ("XDG_SESSION_TYPE", "wayland"),
      ("XDG_CURRENT_DESKTOP", "labwc-ai"),
      ("XDG_SESSION_DESKTOP", "labwc-ai"),
      ("DESKTOP_SESSION", "labwc-ai"),
      ("PATH", d.headlessBin + ":" + d.localBin + ":" + path)
    ]
  }

  function IsolationPairs(d: Desktop): seq<(string, string)> {
    [
      ("CYCOM_ANYAPP_ISOLATED", "1"),
      ("CYCOM_WLR_POINTER_SOCKET", d.pointerSocket),
      ("CYCOM_HEADLESS_WIDTH", "1280"),
      ("CYCOM_HEADLESS_HEIGHT", "720")
    ]
  }

  function PointerPairs(): seq<(string, string)> {
    [
      ("COMPUTER_USE_LINUX_FORCE_YDOTOOL_POINTER", "1"),
      ("CODEX_COMPUTER_USE_FORCE_YDOTOOL_POINTER", "1"),
      ("CU_DISABLE_ABS_POINTER", "1"),
      ("CODEX_COMPUTER_USE_DISABLE_ABS_POINTER", "1")
    ]
  }

  function MapOf(pairs: seq<(string, string)>): map<string, string> {
    if pairs == [] then map[] else MapOf(pairs[..|pairs| - 1])[pairs[|pairs| - 1].0 := pairs[|pairs| - 1].1]
  }

  /** The variables the isolated desktop fixes. */
  function Fixed(d: Desktop, path: string): map<string, string> {
    MapOf(SessionPairs(d, path) + IsolationPairs(d) + PointerPairs())
  }

  lemma {:induction false} MapOfKeys(pairs: seq<(string, string)>)
    ensures forall k | k in MapOf(pairs) :: exists p :: p in pairs && p.0 == k
  {
    if pairs != [] {
      MapOfKeys(pairs[..|pairs| - 1]);
      assert pairs == pairs[..|pairs| - 1] + [pairs[|pairs| - 1]];
    }
  }

  lemma {:induction false} LastPair(pairs: seq<(string, string)>, i: nat)
    requires i < |pairs| && forall j | i < j < |pairs| :: pairs[j].0 != pairs[i].0
    ensures pairs[i].0 in MapOf(pairs) && MapOf(pairs)[pairs[i].0] == pairs[i].1
  {
    var front := pairs[..|pairs| - 1];
    if i < |front| {
      assert front[i] == pairs[i] && forall j | i < j < |front| :: front[j] == pairs[j];
      LastPair(front, i);
    }
  }

  /** The fixed variables that name the desktop: its own display and runtime
      directory, its private pointer socket, and a search path that begins
      with the directory of the pointer shim. */
  lemma FixedExactly(d: Desktop, path: string)
    ensures var fixed := Fixed(d, path);
            && "WAYLAND_DISPLAY" in fixed && fixed["WAYLAND_DISPLAY"] == d.display
            && "XDG_RUNTIME_DIR" in fixed && fixed["XDG_RUNTIME_DIR"] == d.runtimeDir
            && "XDG_SESSION_TYPE" in fixed && fixed["XDG_SESSION_TYPE"] == "wayland"
            && "CYCOM_WLR_POINTER_SOCKET" in fixed && fixed["CYCOM_WLR_POINTER_SOCKET"] == d.pointerSocket
            && "CYCOM_ANYAPP_ISOLATED" in fixed && fixed["CYCOM_ANYAPP_ISOLATED"] == "1"
            && "PATH" in fixed && fixed["PATH"] == d.headlessBin + ":" + d.localBin + ":" + path
  {
    var pairs := SessionPairs(d, path) + IsolationPairs(d) + PointerPairs();
    assert pairs[0] == SessionPairs(d, path)[0];
    LastPair(pairs, 0);
    LastPair(pairs, 1);
    LastPair(pairs, 2);
    LastPair(pairs, 6);
    LastPair(pairs, 7);
    LastPair(pairs, 8);
  }

  /** The other fixed variables. */
  lemma FixedRest(d: Desktop, path: string)
    ensures var fixed := Fixed(d, path);
            && "XDG_CURRENT_DESKTOP" in fixed && fixed["XDG_CURRENT_DESKTOP"] == "labwc-ai"
            && "XDG_SESSION_DESKTOP" in fixed && fixed["XDG_SESSION_DESKTOP"] == "labwc-ai"
            && "DESKTOP_SESSION" in fixed && fixed["DESKTOP_SESSION"] == "labwc-ai"
            && "CYCOM_HEADLESS_WIDTH" in fixed && fixed["CYCOM_HEADLESS_WIDTH"] == "1280"
            && "CYCOM_HEADLESS_HEIGHT" in fixed && fixed["CYCOM_HEADLESS_HEIGHT"] == "720"
  {
    var pairs := SessionPairs(d, path) + IsolationPairs(d) + PointerPairs();
    LastPair(pairs, 3);
    LastPair(pairs, 4);
    LastPair(pairs, 5);
    LastPair(pairs, 9);
    LastPair(pairs, 10);
  }

  lemma PointerFixed(d: Desktop, path: string)
    ensures var fixed := Fixed(d, path);
            && "COMPUTER_USE_LINUX_FORCE_YDOTOOL_POINTER" in fixed && fixed["COMPUTER_USE_LINUX_FORCE_YDOTOOL_POINTER"] == "1"
            && "CODEX_COMPUTER_USE_FORCE_YDOTOOL_POINTER" in fixed && fixed["CODEX_COMPUTER_USE_FORCE_YDOTOOL_POINTER"] == "1"
            && "CU_DISABLE_ABS_POINTER" in fixed && fixed["CU_DISABLE_ABS_POINTER"] == "1"
            && "CODEX_COMPUTER_USE_DISABLE_ABS_POINTER" in fixed && fixed["CODEX_COMPUTER_USE_DISABLE_ABS_POINTER"] == "1"
  {
    var pairs := SessionPairs(d, path) + IsolationPairs(d) + PointerPairs();
    LastPair(pairs, 11);
    LastPair(pairs, 12);
    LastPair(pairs, 13);
    LastPair(pairs, 14);
  }

  lemma FixedGood(d: Desktop, path: string)
    ensures GoodKeys(Fixed(d, path)) && "DISPLAY" !in Fixed(d, path)
  {
    MapOfKeys(SessionPairs(d, path) + IsolationPairs(d) + PointerPairs());
    forall p | p in SessionPairs(d, path) + IsolationPairs(d) + PointerPairs() ensures GoodName(p.0) {
      if p in SessionPairs(d, path) {
        SessionName(d, path, p);
      } else if p in IsolationPairs(d) {
        IsolationName(d, p);
      } else {
        PointerName(p);
      }
    }
  }

  predicate GoodName(k: string) {
    k != "" && '=' !in k && k != "DISPLAY"
  }

  lemma SessionName(d: Desktop, path: string, p: (string, string))
    requires p in SessionPairs(d, path)
    ensures GoodName(p.0)
  {
  }

  lemma PointerName(p: (string, string))
    requires p in PointerPairs()
    ensures GoodName(p.0)
  {
  }

  lemma IsolationName(d: Desktop, p: (string, string))
    requires p in IsolationPairs(d)
    ensures GoodName(p.0)
  {
  }

  /** The value of the first PATH entry. */
  function FirstPath(env: seq<string>): string {
    if env == [] then "" else if HasPrefix(env[0], "PATH=") then env[0][5..] else FirstPath(env[1..])
  }

  function SearchPath(env: seq<string>, processPath: string): string {
    if FirstPath(env) != "" then FirstPath(env) else if processPath != "" then processPath else DEFAULT_PATH
  }

  lemma {:induction false} FirstPathFound(env: seq<string>, i: nat)
    requires i < |env| && "PATH=" <= env[i] && forall j | 0 <= j < i :: !("PATH=" <= env[j])
    ensures "PATH=" + FirstPath(env) == env[i]
  {
    if i > 0 {
      FirstPathFound(env[1..], i - 1);
    }
  }

  lemma {:induction false} FirstPathEmpty(env: seq<string>)
    requires forall e | e in env :: !("PATH=" <= e) || e == "PATH="
    ensures FirstPath(env) == ""
  {
    if env != [] {
      assert env[0] in env && forall e | e in env[1..] :: e in env;
      FirstPathEmpty(env[1..]);
    }
  }

  method BasePath(env: seq<string>, processPath: string) returns (path: string)
    ensures path == SearchPath(env, processPath)
    ensures forall i | 0 <= i < |env| && "PATH=" <= env[i] && (forall j | 0 <= j < i :: !("PATH=" <= env[j])) ::
              env[i] != "PATH=" ==> "PATH=" + path == env[i]
    ensures (forall e | e in env :: !("PATH=" <= e) || e == "PATH=") ==>
              path == if processPath != "" then processPath else "/usr/local/sbin:/usr/local/bin:/usr/bin"
  {
    forall i | 0 <= i < |env| && "PATH=" <= env[i] && forall j | 0 <= j < i :: !("PATH=" <= env[j])
      ensures "PATH=" + FirstPath(env) == env[i]
    {
      FirstPathFound(env, i);
    }
    if forall e | e in env :: !("PATH=" <= e) || e == "PATH=" {
      FirstPathEmpty(env);
    }
    path := "";
    for i := 0 to |env|
      invariant path == "" && FirstPath(env) == FirstPath(env[i..])
    {
      assert env[i..][0] == env[i] && env[i..][1..] == env[i + 1..];
      if HasPrefix(env[i], "PATH=") {
        path := env[i][5..];
        break;
      }
    }
    if path == "" { path := processPath; }
    if path == "" { path := DEFAULT_PATH; }
  }

  /** anyAppIsolatedDesktopEnv: without a live isolated desktop the environment
      is passed on as it is. */
  method IsolatedEnv(env: seq<string>, desktop: Option<Desktop>, processPath: string) returns (out: seq<string>)
    ensures desktop.None? ==> out == env
    ensures desktop.Some? ==> Env(out) == (Env(env) - {"DISPLAY"}) + Fixed(desktop.value, SearchPath(env, processPath))
    ensures desktop.Some? ==> "DISPLAY" !in Env(out)
    ensures desktop.Some? ==>
              var d := desktop.value;
              && "WAYLAND_DISPLAY" in Env(out) && Env(out)["WAYLAND_DISPLAY"] == d.display
              && "XDG_RUNTIME_DIR" in Env(out) && Env(out)["XDG_RUNTIME_DIR"] == d.runtimeDir
              && "PATH" in Env(out) && Env(out)["PATH"] == d.headlessBin + ":" + d.localBin + ":" + SearchPath(env, processPath)
  {
    if desktop.None? {
      return env;
    }
    var path := BasePath(env, processPath);
    FixedGood(desktop.value, path);
    FixedExactly(desktop.value, path);
    out := Overlay(env, Fixed(desktop.value, path));
  }

  // ------------------------------------------------------------ signature

  const WANTED: set<string> := {
    "DISPLAY", "WAYLAND_DISPLAY", "XDG_RUNTIME_DIR", "DBUS_SESSION_BUS_ADDRESS", "XAUTHORITY",
    "XDG_CURRENT_DESKTOP", "XDG_SESSION_TYPE", "CYCOM_ANYAPP_ISOLATED", "CYCOM_WLR_POINTER_SOCKET", "PATH"
  }

  /** The entries that count: those of ten names. */
  lemma WantedExactly(entry: string)
    ensures Selected(entry, WANTED) <==>
              exists k :: k + "=" <= entry && k in {
                "DISPLAY", "WAYLAND_DISPLAY", "XDG_RUNTIME_DIR", "DBUS_SESSION_BUS_ADDRESS", "XAUTHORITY",
                "XDG_CURRENT_DESKTOP", "XDG_SESSION_TYPE", "CYCOM_ANYAPP_ISOLATED", "CYCOM_WLR_POINTER_SOCKET", "PATH" }
  {
    if Selected(entry, WANTED) {
      KeyExactly(entry, Key(entry).value);
    }
    forall k | k in WANTED && k + "=" <= entry ensures Key(entry) == Some(k) {
      KeyExactly(entry, k);
    }
  }

  predicate Selected(entry: string, wanted: set<string>) {
    Key(entry).Some? && Key(entry).value in wanted
  }

  function Select(env: seq<string>, wanted: set<string>): seq<string> {
    if env == [] then []
    else
      var before := Select(env[..|env| - 1], wanted);
      var e := env[|env| - 1];
      if Selected(e, wanted) then before + [e] else before
  }

  function Signature(env: seq<string>, wanted: set<string>): string {
    Join(Sort(Select(env, wanted)), [NUL])
  }

  /** What the client compares: the signature, then the binary's fingerprint. */
  function Combined(env: seq<string>, wanted: set<string>, fingerprint: string): string {
    Signature(env, wanted) + [NUL] + fingerprint
  }

  method SignatureOf(env: seq<string>) returns (sig: string)
    ensures sig == Signature(env, WANTED)
  {
    var values: seq<string> := [];
    for i := 0 to |env|
      invariant values == Select(env[..i], WANTED)
    {
      var entry := env[i];
      assert env[..i + 1][..i] == env[..i];
      match Index(entry, "=")
      case None =>
      case Some(n) =>
        if n > 0 && entry[..n] in WANTED {
          values := values + [entry];
        }
    }
    assert env[..|env|] == env;
    sig := Join(Sort(values), [NUL]);
  }

  ghost predicate NulFree(s: seq<string>) {
    forall e | e in s :: NUL !in e
  }

  /** The pieces between NULs, from the left. */
  function Split(s: string): (r: seq<string>)
    ensures r != []
    decreases |s|
  {
    match Index(s, [NUL])
    case None => [s]
    case Some(i) => [s[..i]] + Split(s[i + 1..])
  }

  lemma {:induction false} SplitJoin(parts: seq<string>)
    requires parts != [] && NulFree(parts)
    ensures Split(Join(parts, [NUL])) == parts
    decreases |parts|
  {
    if |parts| == 1 {
      IndexChar(parts[0], NUL);
    } else {
      var rest := Join(parts[1..], [NUL]);
      FirstChar(parts[0], NUL, rest);
      var s := parts[0] + [NUL] + rest;
      assert s[..|parts[0]|] == parts[0] && s[|parts[0]| + 1..] == rest;
      SplitJoin(parts[1..]);
      assert parts == [parts[0]] + parts[1..];
    }
  }

  lemma {:induction false} JoinLast(parts: seq<string>, last: string)
    requires parts != []
    ensures Join(parts, [NUL]) + [NUL] + last == Join(parts + [last], [NUL])
    decreases |parts|
  {
    var all := parts + [last];
    assert all[1..] == parts[1..] + [last];
    if |parts| == 1 {
      assert all[1..] == [last];
    } else {
      JoinLast(parts[1..], last);
      assert Join(parts, [NUL]) + [NUL] + last == parts[0] + [NUL] + (Join(parts[1..], [NUL]) + [NUL] + last);
    }
  }

  lemma {:induction false} SelectedOnly(env: seq<string>, wanted: set<string>)
    ensures forall e | e in Select(env, wanted) :: e in env && e != ""
  {
    if env != [] {
      SelectedOnly(env[..|env| - 1], wanted);
    }
  }

  /** Combined can be read back: split at NULs, the last piece is the
      fingerprint and those before it are the selected entries in order. */
  function ReadBack(combined: string): (seq<string>, string) {
    var pieces := Split(combined);
    var entries := pieces[..|pieces| - 1];
    (if entries == [""] then [] else entries, pieces[|pieces| - 1])
  }

  lemma CombinedReadsBack(env: seq<string>, wanted: set<string>, fingerprint: string)
    requires NulFree(env) && NUL !in fingerprint
    ensures ReadBack(Combined(env, wanted, fingerprint)) == (Sort(Select(env, wanted)), fingerprint)
  {
    var values := Sort(Select(env, wanted));
    SelectedOnly(env, wanted);
    SortKeepsMembers(Select(env, wanted));
    var entries := if values == [] then [""] else values;
    JoinLast(entries, fingerprint);
    SplitJoin(entries + [fingerprint]);
    assert (entries + [fingerprint])[..|entries|] == entries;
    assert values != [] ==> values[0] in values && values[0] != "";
  }

  /** Two combined signatures agree exactly when the same entries are selected,
      each as often, in whatever order, and the binary is the same. */
  lemma CombinedCanonical(a: seq<string>, b: seq<string>, wanted: set<string>, fa: string, fb: string)
    requires NulFree(a) && NulFree(b) && NUL !in fa && NUL !in fb
    ensures Combined(a, wanted, fa) == Combined(b, wanted, fb) <==>
            multiset(Select(a, wanted)) == multiset(Select(b, wanted)) && fa == fb
  {
    CombinedReadsBack(a, wanted, fa);
    CombinedReadsBack(b, wanted, fb);
    if multiset(Select(a, wanted)) == multiset(Select(b, wanted)) {
      SortedUnique(Sort(Select(a, wanted)), Sort(Select(b, wanted)));
    }
  }

  /** The multiset of selected entries: how often each wanted entry occurs. */
  lemma {:induction false} SelectCounts(env: seq<string>, wanted: set<string>, e: string)
    ensures multiset(Select(env, wanted))[e] == if Selected(e, wanted) then multiset(env)[e] else 0
  {
    if env != [] {
      var before, last := env[..|env| - 1], env[|env| - 1];
      assert env == before + [last];
      SelectCounts(before, wanted, e);
    }
  }

  /** The order of the environment does not show in its signature; so neither
      does the order in which Overlay walked its map. */
  lemma OrderIrrelevant(a: seq<string>, b: seq<string>, wanted: set<string>)
    requires multiset(a) == multiset(b)
    ensures Signature(a, wanted) == Signature(b, wanted)
  {
    forall e ensures multiset(Select(a, wanted))[e] == multiset(Select(b, wanted))[e] {
      SelectCounts(a, wanted, e);
      SelectCounts(b, wanted, e);
    }
    assert multiset(Select(a, wanted)) == multiset(Select(b, wanted));
    SortedUnique(Sort(Select(a, wanted)), Sort(Select(b, wanted)));
  }

  /** A call keeps the running helper, process and pipes, exactly when its
      environment selects the same entries and the binary is unchanged. */
  lemma HelperReusedExactly(w: StdioRpc.World, a: seq<string>, fa: string, b: seq<string>, fb: string, started: bool)
    requires StdioRpc.Reachable(w) && w.pc.Idle? && w.client.cmd.Some?
    requires w.client.envSig == Combined(a, WANTED, fa)
    requires NulFree(a) && NulFree(b) && NUL !in fa && NUL !in fb
    ensures StdioRpc.Apply(w, StdioRpc.Begin(Combined(b, WANTED, fb), started)).client == w.client <==>
            multiset(Select(a, WANTED)) == multiset(Select(b, WANTED)) && fa == fb
  {
    CombinedCanonical(a, b, WANTED, fa, fb);
    StdioRpc.ReachableInv(w);
  }
}
