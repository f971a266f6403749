/** The key-value store: one file per namespace and key, replaced atomically. */
module Store {
  import opened Text
  import opened AtomicFile
  import opened DiskFiles

  // ---------------------------------------------------------------- names

  predicate Kept(c: char) {
    'a' <= c <= 'z' || 'A' <= c <= 'Z' || '0' <= c <= '9' || c == '-' || c == '_' || c == '.'
  }

  function Safe(s: string): string {
    if s == "" then "" else [if Kept(s[0]) then s[0] else '_'] + Safe(s[1..])
  }

  method SafeName(s: string) returns (out: string)
    ensures out == Safe(s)
    ensures |out| == |s| && forall i | 0 <= i < |s| ::
              if || 'a' <= s[i] <= 'z' || 'A' <= s[i] <= 'Z' || '0' <= s[i] <= '9'
                 || s[i] == '-' || s[i] == '_' || s[i] == '.'
              then out[i] == s[i] else out[i] == '_'
  {
    SafeAt(s);
    out := [];
    for i := 0 to |s|
      invariant out + Safe(s[i..]) == Safe(s)
    {
      SafeFirst(s, i);
      var c := s[i];
      if Kept(c) {
        out := out + [c];
      } else {
        out := out + ['_'];
      }
    }
  }

  lemma SafeFirst(s: string, i: nat)
    requires i < |s|
    ensures Safe(s[i..]) == [if Kept(s[i]) then s[i] else '_'] + Safe(s[i + 1..])
  {
    assert s[i..][0] == s[i] && s[i..][1..] == s[i + 1..];
  }

  lemma {:induction false} SafeAt(s: string)
    ensures |Safe(s)| == |s|
    ensures forall i | 0 <= i < |s| :: Safe(s)[i] == if Kept(s[i]) then s[i] else '_'
  {
    if s != "" {
      SafeAt(s[1..]);
      forall i | 0 <= i < |s| ensures Safe(s)[i] == if Kept(s[i]) then s[i] else '_' {
        if i > 0 { assert s[i] == s[1..][i - 1] && Safe(s)[i] == Safe(s[1..])[i - 1]; }
      }
    }
  }

  /** Exactly when two names become one: they differ only where both have a
      character that is replaced, or an underscore. */
  lemma SafeCollides(a: string, b: string)
    ensures Safe(a) == Safe(b) <==>
            |a| == |b| && forall i | 0 <= i < |a| ::
              a[i] == b[i] || ((!Kept(a[i]) || a[i] == '_') && (!Kept(b[i]) || b[i] == '_'))
  {
    SafeAt(a);
    SafeAt(b);
    if |a| == |b| {
      forall i | 0 <= i < |a|
        ensures Safe(a)[i] == Safe(b)[i] <==>
                a[i] == b[i] || ((!Kept(a[i]) || a[i] == '_') && (!Kept(b[i]) || b[i] == '_'))
      {
      }
      SameEverywhere(Safe(a), Safe(b));
    }
  }

  lemma SameEverywhere(a: string, b: string)
    requires |a| == |b|
    ensures a == b <==> forall i | 0 <= i < |a| :: a[i] == b[i]
  {
  }

  /** A name is its own safe form exactly when all its characters are kept;
      safe forms are, and hold no slash. */
  lemma SafeFixed(s: string)
    ensures Safe(s) == s <==> forall i | 0 <= i < |s| :: Kept(s[i])
    ensures Safe(Safe(s)) == Safe(s) && '/' !in Safe(s)
  {
    SafeAt(s);
    SafeAt(Safe(s));
    if Safe(s) == s {
      forall i | 0 <= i < |s| ensures Kept(s[i]) { assert Safe(s)[i] == s[i]; }
    }
  }

  // ---------------------------------------------------------------- paths

  /** The directory of a namespace, below the state directory, as
      filepath.Join gives it: "", "." and ".." are resolved. */
  function Dir(namespace: string): string {
    var n := Safe(namespace);
    if n == ".." then "" else if n == "" || n == "." then "kv/" else "kv/" + n + "/"
  }

  function Path(namespace: string, key: string): string {
    Dir(namespace) + Safe(key) + ".json"
  }

  /** A name of such characters keeps its file below kv/, in a directory of the
      namespace's own unless that is empty, "." or "..". */
  lemma OrdinaryPath(ns: string, key: string)
    requires forall c | c in ns + key :: 'a' <= c <= 'z' || 'A' <= c <= 'Z' || '0' <= c <= '9' || c == '-' || c == '_' || c == '.'
    ensures ns !in {"", ".", ".."} ==> Path(ns, key) == "kv/" + ns + "/" + key + ".json"
    ensures ns in {"", "."} ==> Path(ns, key) == "kv/" + key + ".json"
    ensures ns == ".." ==> Path(ns, key) == key + ".json"
  {
    forall i | 0 <= i < |ns| ensures Kept(ns[i]) { assert ns[i] in ns + key; }
    forall i | 0 <= i < |key| ensures Kept(key[i]) { assert key[i] in ns + key; }
    SafeFixed(ns);
    SafeFixed(key);
  }

  predicate IsDir(d: string) {
    d == "" || d[|d| - 1] == '/'
  }

  lemma DirShape(namespace: string)
    ensures IsDir(Dir(namespace))
  {
  }

  lemma LastSlash(d: string, name: string)
    requires IsDir(d) && '/' !in name
    ensures d != "" ==> (d + name)[|d| - 1] == '/'
    ensures forall i | |d| <= i < |d + name| :: (d + name)[i] != '/'
  {
    forall i | |d| <= i < |d + name| ensures (d + name)[i] != '/' {
      assert (d + name)[i] == name[i - |d|];
    }
  }

  lemma SplitPath(d: string, name: string, d': string, name': string)
    requires IsDir(d) && IsDir(d') && '/' !in name && '/' !in name'
    requires d + name == d' + name'
    ensures d == d' && name == name'
  {
    LastSlash(d, name);
    LastSlash(d', name');
    assert |d| == |d'|;
    assert d == (d + name)[..|d|] && name == (d + name)[|d|..];
  }

  /** Two namespaces share a directory exactly when their safe names agree,
      counting "." as the empty one (which only Get lets through). */
  lemma SameDir(ns: string, ns': string)
    ensures Dir(ns) == Dir(ns') <==> Safe(ns) == Safe(ns') || (Safe(ns) in {"", "."} && Safe(ns') in {"", "."})
  {
    var n, n' := Safe(ns), Safe(ns');
    if n !in {"", ".", ".."} && n' !in {"", ".", ".."} && Dir(ns) == Dir(ns') {
      assert n == Dir(ns)[3..|Dir(ns)| - 1] && n' == Dir(ns')[3..|Dir(ns')| - 1];
    }
  }

  /** Two entries share a file exactly when directory and safe key agree. */
  lemma SameFile(ns: string, key: string, ns': string, key': string)
    ensures Path(ns, key) == Path(ns', key') <==> Dir(ns) == Dir(ns') && Safe(key) == Safe(key')
  {
    SafeFixed(key');
    OneListed(ns, key, ns', Safe(key'));
  }

  /** The entries of a namespace lie below kv/ exactly when its safe name is not
      ".."; those of that one lie in the state directory itself, beside the
      files the other components keep there. */
  lemma BelowKvExactly(ns: string)
    ensures (forall key :: HasPrefix(Path(ns, key), "kv/")) <==> Safe(ns) != ".."
    ensures Safe(ns) == ".." ==> forall key :: Path(ns, key) == Safe(key) + ".json" && '/' !in Path(ns, key)
  {
    if Safe(ns) == ".." {
      forall key ensures Path(ns, key) == Safe(key) + ".json" && '/' !in Path(ns, key) {
        SafeFixed(key);
      }
      NoSlashNotBelow(Path(ns, ""));
    } else {
      forall key ensures HasPrefix(Path(ns, key), "kv/") {
        assert Path(ns, key)[..3] == Dir(ns)[..3] == "kv/";
      }
    }
  }

  lemma NoSlashNotBelow(path: string)
    requires '/' !in path
    ensures !HasPrefix(path, "kv/")
  {
    if |path| >= 3 { assert path[..3][2] == path[2] && path[2] in path; }
  }

  /** The target table is such a file, and the namespace ".." reaches it. */
  lemma NamespaceReachesTargets()
    ensures Path("..", "targets") == "targets.json"
  {
    SafeFixed("..");
    SafeFixed("targets");
  }

  /** os.CreateTemp puts random digits after the pattern. */
  predicate Digits(s: string) {
    forall i | 0 <= i < |s| :: '0' <= s[i] <= '9'
  }

  function TempPath(namespace: string, digits: string): string {
    Dir(namespace) + ".cycom-state-" + digits
  }

  /** The temporary name of the job manager's copy of the routine. */
  function JobTempPath(id: string, pid: string): string {
    id + ".json.tmp-" + pid
  }

  /** Neither kind of temporary file can pass for an entry. */
  lemma TempsAreNotEntries(namespace: string, id: string, digits: string)
    requires Digits(digits)
    ensures !EndsIn(TempPath(namespace, digits), ".json")
    ensures !EndsIn(JobTempPath(id, digits), ".json")
  {
    NotJson(Dir(namespace) + ".cycom-state-", digits);
    NotJson(id + ".json.tmp-", digits);
  }

  lemma EndsInN(s: string)
    requires EndsIn(s, ".json")
    ensures s[|s| - 1] == 'n'
  {
    assert s[|s| - 5..][4] == s[|s| - 1];
  }

  lemma NotJson(front: string, digits: string)
    requires front != "" && front[|front| - 1] == '-' && Digits(digits)
    ensures !EndsIn(front + digits, ".json")
  {
    var s := front + digits;
    var last := s[|s| - 1];
    assert last == '-' || '0' <= last <= '9';
    if EndsIn(s, ".json") {
      EndsInN(s);
      assert false;
    }
  }

  // ----------------------------------------------------------- the store

  datatype Error = NameRequired | CannotEncode | DiskError | NotExist

  function Lookup(files: Directory, ns: string, key: string): Option<string> {
    if Path(ns, key) in files then Some(files[Path(ns, key)].data) else None
  }

  /** k is what List reports for some file of the namespace. */
  predicate Listed(files: Directory, ns: string, k: string) {
    '/' !in k && Dir(ns) + k + ".json" in files
  }

  /** An entry can be fetched exactly when its safe name is listed. */
  lemma FetchedIffListed(files: Directory, ns: string, key: string)
    ensures Lookup(files, ns, key).Some? <==> Listed(files, ns, Safe(key))
  {
    SafeFixed(key);
  }

  /** What a Put changes: the entries that share its file, and nothing else. */
  lemma PutSeen(files: Directory, ns: string, key: string, data: string, ns': string, key': string)
    ensures var after := files[Path(ns, key) := File(data, true)];
            Lookup(after, ns', key') == if Dir(ns) == Dir(ns') && Safe(key) == Safe(key') then Some(data) else Lookup(files, ns', key')
    ensures var after := files[Path(ns, key) := File(data, true)];
            forall k :: Listed(after, ns', k) <==> Listed(files, ns', k) || (Dir(ns) == Dir(ns') && k == Safe(key))
  {
    SameFile(ns, key, ns', key');
    var after := files[Path(ns, key) := File(data, true)];
    forall k ensures Listed(after, ns', k) <==> Listed(files, ns', k) || (Dir(ns) == Dir(ns') && k == Safe(key)) {
      OneListed(ns, key, ns', k);
    }
  }

  lemma DeleteSeen(files: Directory, ns: string, key: string, ns': string, key': string)
    ensures var after := files - {Path(ns, key)};
            Lookup(after, ns', key') == if Dir(ns) == Dir(ns') && Safe(key) == Safe(key') then None else Lookup(files, ns', key')
    ensures var after := files - {Path(ns, key)};
            forall k :: Listed(after, ns', k) <==> Listed(files, ns', k) && !(Dir(ns) == Dir(ns') && k == Safe(key))
  {
    SameFile(ns, key, ns', key');
    var after := files - {Path(ns, key)};
    forall k ensures Listed(after, ns', k) <==> Listed(files, ns', k) && !(Dir(ns) == Dir(ns') && k == Safe(key)) {
      OneListed(ns, key, ns', k);
    }
  }

  lemma OneListed(ns: string, key: string, ns': string, k: string)
    ensures '/' !in k && Dir(ns') + k + ".json" == Path(ns, key) <==> Dir(ns) == Dir(ns') && k == Safe(key)
  {
    SafeFixed(key);
    if '/' !in k && Dir(ns') + k + ".json" == Path(ns, key) {
      DirShape(ns);
      DirShape(ns');
      SamePath(Dir(ns), Safe(key), Dir(ns'), k);
    }
  }

  lemma SamePath(d: string, k: string, d': string, k': string)
    requires IsDir(d) && IsDir(d') && '/' !in k && '/' !in k' && d + k + ".json" == d' + k' + ".json"
    ensures d == d' && k == k'
  {
    var name, name' := k + ".json", k' + ".json";
    assert d + name == d + k + ".json" && d' + name' == d' + k' + ".json";
    SplitPath(d, name, d', name');
    assert k == name[..|name| - 5] && k' == name'[..|name'| - 5];
  }

  /** The names ReadDir gives for a directory. */
  function Entries(files: Directory, d: string): set<string> {
    set p | p in files && HasPrefix(p, d) && '/' !in p[|d|..] :: p[|d|..]
  }

  lemma ListedEntry(files: Directory, ns: string, k: string)
    ensures Listed(files, ns, k) <==> k + ".json" in Entries(files, Dir(ns))
  {
    var d, name := Dir(ns), k + ".json";
    var p := d + name;
    assert p == Dir(ns) + k + ".json" && p[|d|..] == name && HasPrefix(p, d);
    if name in Entries(files, d) {
      var q :| q in files && HasPrefix(q, d) && '/' !in q[|d|..] && q[|d|..] == name;
      assert q == q[..|d|] + q[|d|..] == p;
      forall i | 0 <= i < |k| ensures k[i] != '/' { assert name[i] == k[i]; }
    }
  }

  class Store {
    const disk: Disk

    /** Only this store has written here: entries, through temporaries. */
    ghost predicate Valid()
      reads this, disk
    {
      && disk.Valid()
      && (forall t | t in disk.W.temps :: !EndsIn(t, ".json"))
      && (forall o | o in disk.W.offered :: exists ns, key :: o.target == Path(ns, key))
      && (forall p | p in disk.W.removed :: EndsIn(p, ".json"))
    }

    constructor (files: Directory)
      ensures Valid() && disk.first == files && disk.files == files && fresh(disk)
    {
      disk := new Disk(files);
    }

    ghost predicate FreeTemp(ns: string, digits: string)
      reads this, disk
    {
      Digits(digits) && TempPath(ns, digits) !in disk.files && TempPath(ns, digits) !in disk.W.temps
    }

    lemma Usable(ns: string, key: string, digits: string)
      requires Valid() && FreeTemp(ns, digits)
      ensures disk.Usable(Path(ns, key), TempPath(ns, digits)) && EndsIn(Path(ns, key), ".json")
      ensures !EndsIn(TempPath(ns, digits), ".json")
    {
      TempsAreNotEntries(ns, "", digits);
      PathJson(ns, key);
      forall o | o in disk.W.offered ensures o.target != TempPath(ns, digits) {
        var ns', key' :| o.target == Path(ns', key');
        PathJson(ns', key');
      }
    }

    /** Put: with both names given and a value that can be encoded it succeeds
        exactly when the replacement finishes; then that entry alone changes.
        Otherwise no entry of any namespace does, unless the process died with
        the rename just done. */
    method Put(ns: string, key: string, value: Option<string>, digits: string, fate: Fate) returns (r: Option<Error>)
      requires Valid() && FreeTemp(ns, digits)
      modifies disk`files, disk`W
      ensures Valid() && disk.first == old(disk.first)
      ensures r == if ns == "" || key == "" then Some(NameRequired)
                   else if value.None? then Some(CannotEncode)
                   else if fate.Finishes? then None else Some(DiskError)
      ensures r.None? ==> disk.files == old(disk.files)[Path(ns, key) := File(value.value, true)]
      ensures r.Some? ==>
                || disk.files == old(disk.files)
                || (fate.Dies? && disk.files - {TempPath(ns, digits)} == old(disk.files))
                || (fate.DiesRenamed? && value.Some? && disk.files == old(disk.files)[Path(ns, key) := File(value.value, true)])
    {
      if ns == "" || key == "" {
        return Some(NameRequired);
      }
      if value.None? {
        return Some(CannotEncode);
      }
      Usable(ns, key, digits);
      var dir := SafeDir(ns);
      var name := SafeName(key);
      var ok := disk.Replace(dir + name + ".json", value.value, dir + ".cycom-state-" + digits, fate);
      r := if ok then None else Some(DiskError);
    }

    method SafeDir(ns: string) returns (d: string)
      ensures d == Dir(ns)
    {
      var n := SafeName(ns);
      d := if n == ".." then "" else if n == "" || n == "." then "kv/" else "kv/" + n + "/";
    }

    /** Get does not check its names. */
    method Get(ns: string, key: string) returns (r: Result<string, Error>)
      ensures r == match Lookup(disk.files, ns, key) case Some(data) => Ok(data) case None => Err(NotExist)
    {
      var dir := SafeDir(ns);
      var name := SafeName(key);
      var path := dir + name + ".json";
      if path !in disk.files {
        return Err(NotExist);
      }
      r := Ok(disk.files[path].data);
    }

    method Delete(ns: string, key: string) returns (r: Option<Error>)
      requires Valid()
      modifies disk`files, disk`W
      ensures Valid() && disk.first == old(disk.first)
      ensures r == if ns == "" || key == "" then Some(NameRequired)
                   else if Lookup(old(disk.files), ns, key).None? then Some(NotExist) else None
      ensures disk.files == if r.None? then old(disk.files) - {Path(ns, key)} else old(disk.files)
    {
      if ns == "" || key == "" {
        return Some(NameRequired);
      }
      var dir := SafeDir(ns);
      var name := SafeName(key);
      PathJson(ns, key);
      var ok := disk.RemoveFile(dir + name + ".json");
      assert !ok ==> disk.files == old(disk.files);
      r := if ok then None else Some(NotExist);
    }

    /** List: the names of the namespace's entries, each once, in order.
        Leftover temporary files are never among them; and on a disk that
        began empty each was put, and can be fetched under the name reported. */
    method List(ns: string) returns (r: Result<seq<string>, Error>)
      requires Valid()
      ensures r.Err? <==> ns == ""
      ensures r.Err? ==> r.error == NameRequired
      ensures r.Ok? ==>
                && Sorted(r.value)
                && (forall i, j | 0 <= i < j < |r.value| :: r.value[i] != r.value[j])
                && (forall k :: k in r.value <==> Listed(disk.files, ns, k))
      ensures r.Ok? ==> forall k | k in r.value :: Dir(ns) + k + ".json" !in disk.W.temps
      ensures r.Ok? && disk.first == map[] ==> forall k | k in r.value :: Lookup(disk.files, ns, k).Some?
    {
      if ns == "" {
        return Err(NameRequired);
      }
      var d := SafeDir(ns);
      var entries := KeysInSomeOrder(Entries(disk.files, d));
      NoRepeats(entries, Entries(disk.files, d));
      var out: seq<string> := [];
      for n := 0 to |entries|
        invariant Collected(entries[..n], out)
      {
        var e := entries[n];
        ExtIs(e, ".json");
        CollectOne(entries, n, out);
        if Ext(e) == ".json" {
          out := out + [e[..|e| - 5]];
        }
      }
      assert entries[..|entries|] == entries;
      forall k ensures k in out <==> Listed(disk.files, ns, k) {
        ListedEntry(disk.files, ns, k);
      }
      SortKeepsMembers(out);
      r := Ok(Sort(out));
      forall k | k in r.value ensures Dir(ns) + k + ".json" !in disk.W.temps {
        assert EndsIn(Dir(ns) + k + ".json", ".json");
      }
      if disk.first == map[] {
        forall k | k in r.value ensures Lookup(disk.files, ns, k).Some? {
          EntryWasPut(ns, k);
        }
      }
    }

    /** On a disk that began empty every listed name is its own safe form. */
    lemma EntryWasPut(ns: string, k: string)
      requires Valid() && disk.first == map[] && Listed(disk.files, ns, k)
      ensures Safe(k) == k && Lookup(disk.files, ns, k).Some?
    {
      var p := Dir(ns) + k + ".json";
      assert EndsIn(p, ".json");
      ReaderSeesOldOrNew(disk.first, disk.W, p);
      var o :| o in disk.W.offered && o.target == p;
      var ns', key :| o.target == Path(ns', key);
      OneListed(ns', key, ns, k);
      SafeFixed(key);
    }
  }

  lemma PathJson(ns: string, key: string)
    ensures EndsIn(Path(ns, key), ".json")
  {
  }

  /** out holds, once each, the stems of the .json names. */
  ghost predicate Collected(names: seq<string>, out: seq<string>) {
    && (forall k :: k in out <==> k + ".json" in names)
    && (forall i, j | 0 <= i < j < |out| :: out[i] != out[j])
  }

  lemma CollectOne(entries: seq<string>, n: nat, out: seq<string>)
    requires n < |entries| && (forall i, j | 0 <= i < j < |entries| :: entries[i] != entries[j])
    requires Collected(entries[..n], out)
    ensures EndsIn(entries[n], ".json") ==> Collected(entries[..n + 1], out + [entries[n][..|entries[n]| - 5]])
    ensures !EndsIn(entries[n], ".json") ==> Collected(entries[..n + 1], out)
  {
    var e, names := entries[n], entries[..n + 1];
    assert names == entries[..n] + [e];
    if EndsIn(e, ".json") {
      var stem := e[..|e| - 5];
      assert e == stem + ".json";
      assert e !in entries[..n];
      assert stem !in out;
      forall k ensures k in out + [stem] <==> k + ".json" in names {
        assert k + ".json" == e ==> k == (k + ".json")[..|k|] == stem;
      }
    } else {
      forall k ensures k in out <==> k + ".json" in names {
        assert EndsIn(k + ".json", ".json");
      }
    }
  }
}
