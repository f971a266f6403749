/** The durable table of remote targets. */
module Targets {
  import opened Text

  datatype Target = Target(
    name: string, transport: string, host: string, port: int, user: string, identityFile: string,
    workDir: string, env: map<string, string>, sshOptions: seq<string>, tags: seq<string>, enabled: bool)

  const LOCAL := Target("local", "local", "", 0, "", "", "", map[], [], [], true)

  datatype Error = NameRequired | Reserved | BadTransport | HostRequired | BadHost | BadUser | BadPort | NotPersisted | NotExist

  // -------------------------------------------------------- normalisation

  predicate Space(c: char) {
    c == ' ' || '\t' <= c <= '\r'
  }

  function TrimLeft(s: string): (r: string)
    ensures |r| <= |s| && (r == "" || !Space(r[0]))
  {
    if s != "" && Space(s[0]) then TrimLeft(s[1..]) else s
  }

  function TrimRight(s: string): (r: string)
    ensures |r| <= |s| && s[..|r|] == r && (r == "" || !Space(r[|r| - 1]))
  {
    if s != "" && Space(s[|s| - 1]) then TrimRight(s[..|s| - 1]) else s
  }

  /** strings.TrimSpace. */
  function Trim(s: string): string {
    TrimRight(TrimLeft(s))
  }

  function LowerChar(c: char): char {
    if 'A' <= c <= 'Z' then c - 'A' + 'a' else c
  }

  /** strings.ToLower. */
  function Lower(s: string): (r: string)
    ensures |r| == |s| && forall i | 0 <= i < |s| :: r[i] == LowerChar(s[i])
  {
    if s == "" then "" else [LowerChar(s[0])] + Lower(s[1..])
  }

  function Normalize(t: Target): Target {
    var transport := Lower(Trim(if t.transport == "" then "ssh" else t.transport));
    t.(name := Trim(t.name), transport := transport,
       port := if t.port == 0 && transport == "ssh" then 22 else t.port,
       enabled := transport == "local" || t.enabled)
  }

  predicate Trimmed(s: string) {
    s == "" || (!Space(s[0]) && !Space(s[|s| - 1]))
  }

  /** Trimming leaves a string as it is exactly when it is trimmed, and makes
      it so. */
  lemma TrimExact(s: string)
    ensures Trimmed(Trim(s))
    ensures Trim(s) == s <==> Trimmed(s)
  {
  }

  lemma LowerTrim(s: string)
    ensures Trimmed(s) ==> Trimmed(Lower(s))
    ensures Lower(Lower(s)) == Lower(s)
    ensures Lower(s) == "" <==> s == ""
  {
  }

  lemma SpacesExactly(c: char)
    ensures Space(c) <==> c as int == 32 || 9 <= c as int <= 13
  {
  }

  /** Trim takes white space off both ends and nothing else. */
  lemma TrimIsMiddle(s: string) returns (i: nat, j: nat)
    ensures i <= j <= |s| && Trim(s) == s[i..j]
    ensures forall k | 0 <= k < i || j <= k < |s| :: Space(s[k])
    ensures Trim(s) != "" ==> !Space(s[i]) && !Space(s[j - 1])
  {
    i := LeftIsSuffix(s);
    var n := RightIsPrefix(TrimLeft(s));
    j := i + n;
    assert s[i..][..n] == s[i..j];
    forall k | j <= k < |s| ensures Space(s[k]) { assert s[k] == s[i..][k - i]; }
  }

  lemma {:induction false} LeftIsSuffix(s: string) returns (i: nat)
    ensures i <= |s| && TrimLeft(s) == s[i..] && forall k | 0 <= k < i :: Space(s[k])
  {
    if s != "" && Space(s[0]) {
      i := LeftIsSuffix(s[1..]);
      assert s[1..][i..] == s[i + 1..];
      assert forall k | 1 <= k < i + 1 :: s[k] == s[1..][k - 1];
      i := i + 1;
    } else {
      i := 0;
    }
  }

  lemma {:induction false} RightIsPrefix(s: string) returns (n: nat)
    ensures n <= |s| && TrimRight(s) == s[..n] && forall k | n <= k < |s| :: Space(s[k])
  {
    if s != "" && Space(s[|s| - 1]) {
      var front := s[..|s| - 1];
      n := RightIsPrefix(front);
      assert front[..n] == s[..n];
      assert forall k | n <= k < |front| :: front[k] == s[k];
    } else {
      n := |s|;
      assert s[..n] == s;
    }
  }

  /** What normalising sets: the name without white space around it; the
      transport, ssh when none is given, in lower case; port 22 for ssh without
      a port; a local target enabled.  All else stays. */
  lemma NormalizeExactly(t: Target)
    ensures var r := Normalize(t);
            && r.name == Trim(t.name)
            && (t.transport == "" ==> r.transport == "ssh")
            && (t.transport != "" ==> r.transport == Lower(Trim(t.transport)))
            && (t.port != 0 ==> r.port == t.port)
            && (t.port == 0 && r.transport == "ssh" ==> r.port == 22)
            && (t.port == 0 && r.transport != "ssh" ==> r.port == 0)
            && (r.enabled <==> t.enabled || r.transport == "local")
            && r.host == t.host && r.user == t.user && r.identityFile == t.identityFile && r.workDir == t.workDir
            && r.env == t.env && r.sshOptions == t.sshOptions && r.tags == t.tags
  {
    TrimExact("ssh");
    SshFixed();
  }

  /** Normalising twice changes nothing more, except for a transport that is
      all white space: that becomes empty first and ssh the second time. */
  lemma NormalizeTwice(t: Target)
    ensures Normalize(Normalize(t)) == Normalize(t) <==> t.transport == "" || Trim(t.transport) != ""
  {
    TrimExact(t.name);
    TrimExact(Trim(t.name));
    var chosen := if t.transport == "" then "ssh" else t.transport;
    TrimExact(chosen);
    LowerTrim(Trim(chosen));
    TrimExact(Lower(Trim(chosen)));
    assert Trim("ssh") == "ssh" && Lower("ssh") == "ssh" by { TrimExact("ssh"); SshFixed(); }
  }

  lemma SshFixed()
    ensures Lower("ssh") == "ssh" && Trimmed("ssh")
  {
    assert Lower("ssh")[0] == 's' && Lower("ssh")[1] == 's' && Lower("ssh")[2] == 'h';
  }

  // ----------------------------------------------------------- validation

  predicate HasAny(s: string, chars: string) {
    exists i | 0 <= i < |s| :: s[i] in chars
  }

  /** The checks of Upsert, in order. */
  function Check(t: Target): Option<Error> {
    if t.name == "" then Some(NameRequired)
    else if t.name == "local" then Some(Reserved)
    else if t.transport != "ssh" then Some(BadTransport)
    else if t.host == "" then Some(HostRequired)
    else if HasPrefix(t.host, "-") || HasAny(t.host, " \t\r\n") then Some(BadHost)
    else if HasPrefix(t.user, "-") || HasAny(t.user, " \t\r\n@") then Some(BadUser)
    else if t.port <= 0 || t.port > 65535 then Some(BadPort)
    else None
  }

  /** What every entry of the table is like. */
  predicate Good(t: Target) {
    && t.name != "" && t.name != "local" && Trimmed(t.name)
    && t.transport == "ssh" && 1 <= t.port <= 65535
    && t.host != "" && t.host[0] != '-' && !HasAny(t.host, " \t\r\n")
    && (t.user != "" ==> t.user[0] != '-') && !HasAny(t.user, " \t\r\n@")
  }

  /** What may be stored is good and a fixed point of normalisation. */
  lemma CheckedIsGood(t: Target)
    ensures Check(Normalize(t)).None? <==> Good(Normalize(t))
    ensures Good(t) ==> Normalize(t) == t
  {
    TrimExact(t.name);
    PrefixDash(t.host);
    PrefixDash(t.user);
    if Good(t) {
      TrimExact("ssh");
      SshFixed();
    }
  }

  lemma PrefixDash(s: string)
    ensures HasPrefix(s, "-") <==> s != "" && s[0] == '-'
  {
    if s != "" { assert s[..1] == [s[0]]; }
  }

  /** Which targets Upsert accepts, said of the target as given. */
  lemma AcceptedExactly(t: Target)
    ensures Check(Normalize(t)).None? <==>
              && Trim(t.name) != "" && Trim(t.name) != "local"
              && (t.transport == "" || Lower(Trim(t.transport)) == "ssh")
              && 0 <= t.port <= 65535
              && t.host != "" && t.host[0] != '-' && !HasAny(t.host, " \t\r\n")
              && (t.user != "" ==> t.user[0] != '-') && !HasAny(t.user, " \t\r\n@")
  {
    PrefixDash(t.host);
    PrefixDash(t.user);
    TrimExact("ssh");
    SshFixed();
  }

  /** Which error a refused target meets: that of the first check it fails. */
  lemma RefusedExactly(t: Target)
    ensures Check(Normalize(t)) == Some(NameRequired) <==> Trim(t.name) == ""
    ensures Check(Normalize(t)) == Some(Reserved) <==> Trim(t.name) == "local"
    ensures Trim(t.name) !in {"", "local"} ==>
              && (Check(Normalize(t)) == Some(BadTransport) <==> t.transport != "" && Lower(Trim(t.transport)) != "ssh")
              && (t.transport == "" || Lower(Trim(t.transport)) == "ssh" ==>
                    && (Check(Normalize(t)) == Some(HostRequired) <==> t.host == "")
                    && (Check(Normalize(t)) == Some(BadHost) <==>
                          t.host != "" && (t.host[0] == '-' || exists c | c in t.host :: c in " \t\r\n"))
                    && (Check(Normalize(t)) == Some(BadUser) <==>
                          && t.host != "" && t.host[0] != '-' && (forall c | c in t.host :: c !in " \t\r\n")
                          && t.user != "" && (t.user[0] == '-' || exists c | c in t.user :: c in " \t\r\n@"))
                    && (Check(Normalize(t)) == Some(BadPort) ==> t.port < 0 || t.port > 65535))
  {
    NormalizeExactly(t);
    PrefixDash(t.host);
    PrefixDash(t.user);
    HasAnyMember(t.host, " \t\r\n");
    HasAnyMember(t.user, " \t\r\n@");
  }

  lemma HasAnyMember(s: string, chars: string)
    ensures HasAny(s, chars) <==> exists c | c in s :: c in chars
  {
    if HasAny(s, chars) {
      var i :| 0 <= i < |s| && s[i] in chars;
      assert s[i] in s;
    }
  }

  // ------------------------------------------------------ sorting by name

  ghost predicate ByName(s: seq<Target>) {
    forall i, j | 0 <= i < j < |s| :: Leq(s[i].name, s[j].name)
  }

  function InsertByName(x: Target, s: seq<Target>): seq<Target> {
    if s == [] || Leq(x.name, s[0].name) then [x] + s else [s[0]] + InsertByName(x, s[1..])
  }

  /** The library call sort.Slice, by name. */
  function SortByName(s: seq<Target>): seq<Target> {
    if s == [] then [] else InsertByName(s[0], SortByName(s[1..]))
  }

  lemma {:induction false} InsertMembers(x: Target, s: seq<Target>)
    ensures multiset(InsertByName(x, s)) == multiset{x} + multiset(s)
  {
    if s == [] || Leq(x.name, s[0].name) {
      assert multiset([x] + s) == multiset{x} + multiset(s);
    } else {
      InsertMembers(x, s[1..]);
      assert s == [s[0]] + s[1..];
    }
  }

  lemma {:induction false} InsertOrdered(x: Target, s: seq<Target>)
    requires ByName(s)
    ensures ByName(InsertByName(x, s))
  {
    if s == [] {
    } else if Leq(x.name, s[0].name) {
      forall j | 0 <= j < |s| ensures Leq(x.name, s[j].name) {
        if j > 0 { LeqTransitive(x.name, s[0].name, s[j].name); }
      }
    } else {
      LeqTotal(x.name, s[0].name);
      InsertOrdered(x, s[1..]);
      InsertMembers(x, s[1..]);
      var rest := InsertByName(x, s[1..]);
      forall j | 0 <= j < |rest| ensures Leq(s[0].name, rest[j].name) {
        assert rest[j] in multiset(rest);
        assert rest[j] == x || rest[j] in s[1..];
      }
    }
  }

  lemma {:induction false} SortOrders(s: seq<Target>)
    ensures ByName(SortByName(s)) && multiset(SortByName(s)) == multiset(s)
  {
    if s != [] {
      SortOrders(s[1..]);
      InsertOrdered(s[0], SortByName(s[1..]));
      InsertMembers(s[0], SortByName(s[1..]));
      assert s == [s[0]] + s[1..];
    }
  }

  // --------------------------------------------------------- the file

  /** The entries of m, each once. */
  ghost predicate Once(list: seq<Target>, m: map<string, Target>) {
    && (forall i, j | 0 <= i < j < |list| :: list[i].name != list[j].name)
    && (forall t :: t in list <==> t.name in m && m[t.name] == t)
  }

  /** And by strictly increasing name. */
  ghost predicate Lists(list: seq<Target>, m: map<string, Target>) {
    ByName(list) && Once(list, m)
  }

  ghost predicate Keyed(m: map<string, Target>) {
    forall n | n in m :: m[n].name == n
  }

  ghost predicate TableOk(m: map<string, Target>) {
    Keyed(m) && forall n | n in m :: Good(m[n])
  }

  /** There is one such list, so what is written is determined. */
  lemma {:induction false} ListsUnique(a: seq<Target>, b: seq<Target>, m: map<string, Target>)
    requires Lists(a, m) && Lists(b, m)
    ensures a == b
    decreases |a|
  {
    assert a != [] ==> a[0] in a && a[0] in b;
    assert b != [] ==> b[0] in b && b[0] in a;
    if a != [] {
      var i :| 0 <= i < |b| && b[i] == a[0];
      var j :| 0 <= j < |a| && a[j] == b[0];
      if i > 0 && j > 0 {
        LeqAntisymmetric(a[0].name, b[0].name);
      }
      ListsTail(a, m);
      ListsTail(b, m);
      ListsUnique(a[1..], b[1..], m - {a[0].name});
      assert a == [a[0]] + a[1..] && b == [b[0]] + b[1..];
    }
  }

  lemma ListsTail(a: seq<Target>, m: map<string, Target>)
    requires Lists(a, m) && a != []
    ensures Lists(a[1..], m - {a[0].name})
  {
    var m' := m - {a[0].name};
    forall t ensures t in a[1..] <==> t.name in m' && m'[t.name] == t {
      assert t in a <==> t.name in m && m[t.name] == t;
      assert a[0] in a;
      if t in a[1..] {
        var i :| 1 <= i < |a| && a[i] == t;
        assert a[0].name != a[i].name;
      }
    }
  }

  /** What load makes of a parsed file: later entries win; nothing is checked. */
  function Load(list: seq<Target>): map<string, Target> {
    if list == [] then map[]
    else
      var t := list[|list| - 1];
      var before := Load(list[..|list| - 1]);
      if t.name != "" then before[t.name := Normalize(t)] else before
  }

  /** Of several entries of one name, as written, the last is loaded. */
  lemma {:induction false} LastEntryLoaded(list: seq<Target>, i: nat)
    requires i < |list| && list[i].name != "" && forall j | i < j < |list| :: list[j].name != list[i].name
    ensures list[i].name in Load(list) && Load(list)[list[i].name] == Normalize(list[i])
  {
    var front := list[..|list| - 1];
    if i < |front| {
      assert front[i] == list[i] && forall j | i < j < |front| :: front[j] == list[j];
      LastEntryLoaded(front, i);
    }
  }

  lemma {:induction false} OnlyEntriesLoaded(list: seq<Target>)
    ensures forall n | n in Load(list) :: n != "" && exists t :: t in list && t.name == n
  {
    if list != [] {
      OnlyEntriesLoaded(list[..|list| - 1]);
      assert list == list[..|list| - 1] + [list[|list| - 1]];
    }
  }

  /** Loading what was written rebuilds the table. */
  lemma {:induction false} LoadRebuilds(list: seq<Target>, m: map<string, Target>)
    requires Once(list, m) && TableOk(m)
    ensures Load(list) == m
    decreases |list|
  {
    assert forall n | n in m :: m[n] in list;
    if list == [] {
      assert m == map[];
    } else {
      var before, last := list[..|list| - 1], list[|list| - 1];
      OnceInit(list, m);
      assert Good(m[last.name]);
      CheckedIsGood(last);
      LoadRebuilds(before, m - {last.name});
      PutBack(m, last.name);
    }
  }

  lemma PutBack(m: map<string, Target>, n: string)
    requires n in m
    ensures (m - {n})[n := m[n]] == m
  {
  }

  lemma OnceInit(list: seq<Target>, m: map<string, Target>)
    requires Once(list, m) && list != []
    ensures var last := list[|list| - 1];
            last.name in m && m[last.name] == last && Once(list[..|list| - 1], m - {last.name})
  {
    var before, last := list[..|list| - 1], list[|list| - 1];
    var m' := m - {last.name};
    assert list == before + [last] && last in list;
    forall t ensures t in before <==> t.name in m' && m'[t.name] == t {
      assert t in list <==> t.name in m && m[t.name] == t;
    }
  }

  /** The targets of a table taken in some order of its names, sorted. */
  lemma SortedLists(keys: seq<string>, list: seq<Target>, m: map<string, Target>)
    requires Keyed(m) && multiset(keys) == multiset(m.Keys)
    requires |list| == |keys| && forall i | 0 <= i < |keys| :: keys[i] in m && list[i] == m[keys[i]]
    ensures Lists(SortByName(list), m)
  {
    CollectedOnce(keys, list, m);
    SortOrders(list);
    StillOnce(list, SortByName(list), m);
  }

  lemma CollectedOnce(keys: seq<string>, list: seq<Target>, m: map<string, Target>)
    requires Keyed(m) && multiset(keys) == multiset(m.Keys)
    requires |list| == |keys| && forall i | 0 <= i < |keys| :: keys[i] in m && list[i] == m[keys[i]]
    ensures Once(list, m)
  {
    NoRepeats(keys, m.Keys);
    forall t: Target | t.name in m && m[t.name] == t ensures t in list {
      assert t.name in keys;
      var i :| 0 <= i < |keys| && keys[i] == t.name;
      assert list[i] == t;
    }
    forall i, j | 0 <= i < j < |list| ensures list[i].name != list[j].name {
      assert keys[i] != keys[j] && list[i].name == keys[i] && list[j].name == keys[j];
    }
  }

  lemma StillOnce(a: seq<Target>, b: seq<Target>, m: map<string, Target>)
    requires Once(a, m) && multiset(b) == multiset(a)
    ensures Once(b, m)
  {
    forall t ensures t in b <==> t in a {
      assert t in b <==> t in multiset(b);
    }
    OnceEach(a);
    forall i, j | 0 <= i < j < |b| ensures b[i].name != b[j].name {
      if b[i].name == b[j].name {
        assert b[i] in b && b[j] in b;
        TwicePlaced(b, i, j);
        assert false;
      }
    }
  }

  lemma TwicePlaced(s: seq<Target>, i: nat, j: nat)
    requires i < j < |s| && s[i] == s[j]
    ensures multiset(s)[s[i]] >= 2
  {
    assert s == s[..j] + [s[j]] + s[j + 1..];
    assert s[i] in s[..j];
  }

  lemma {:induction false} OnceEach(list: seq<Target>)
    requires forall i, j | 0 <= i < j < |list| :: list[i].name != list[j].name
    ensures forall t :: multiset(list)[t] <= 1
  {
    if list != [] {
      var before, last := list[..|list| - 1], list[|list| - 1];
      assert list == before + [last];
      OnceEach(before);
      assert last !in before;
    }
  }

  // ---------------------------------------------------------- the manager

  class Manager {
    var targets: map<string, Target>
    var disk: Option<seq<Target>>      // the parsed file, if there is one

    ghost predicate Valid()
      reads this
    {
      TableOk(targets)
    }

    /** The file holds the table. */
    ghost predicate InSync()
      reads this
    {
      if disk.None? then targets == map[] else Lists(disk.value, targets)
    }

    /** New, on no file or one that a manager wrote: it has that table again. */
    constructor (file: Option<seq<Target>>, ghost written: map<string, Target>)
      requires TableOk(written) && if file.None? then written == map[] else Lists(file.value, written)
      ensures Valid() && InSync() && targets == written && disk == file
    {
      disk := file;
      var loaded: map<string, Target> := map[];
      if file.Some? {
        loaded := LoadEntries(file.value);
        LoadRebuilds(file.value, written);
      }
      targets := loaded;
    }

    /** The loop of load. */
    static method LoadEntries(list: seq<Target>) returns (loaded: map<string, Target>)
      ensures loaded == Load(list)
    {
      loaded := map[];
      for i := 0 to |list|
        invariant loaded == Load(list[..i])
      {
        var t := list[i];
        assert list[..i + 1][..i] == list[..i];
        if t.name != "" {
          loaded := loaded[t.name := Normalize(t)];
        }
      }
      assert list[..|list|] == list;
    }

    /** The loop over the table that persistLocked and List share. */
    method Collect(first: seq<Target>) returns (list: seq<Target>, ghost keys: seq<string>)
      ensures multiset(keys) == multiset(targets.Keys) && |list| == |first| + |keys| && list[..|first|] == first
      ensures forall i | 0 <= i < |keys| :: keys[i] in targets && list[|first| + i] == targets[keys[i]]
    {
      var order := KeysInSomeOrder(targets.Keys);
      NoRepeats(order, targets.Keys);
      list := first;
      for i := 0 to |order|
        invariant |list| == |first| + i && list[..|first|] == first
        invariant forall k | 0 <= k < i :: list[|first| + k] == targets[order[k]]
      {
        list := list + [targets[order[i]]];
      }
      keys := order;
    }

    /** What is to be written. */
    method Listing() returns (list: seq<Target>)
      requires Valid()
      ensures Lists(list, targets)
    {
      var none: seq<Target> := [];
      var unsorted, keys := Collect(none);
      forall i | 0 <= i < |keys| ensures keys[i] in targets && unsorted[i] == targets[keys[i]] {
        assert unsorted[|none| + i] == targets[keys[i]];
      }
      SortedLists(keys, unsorted, targets);
      list := SortByName(unsorted);
    }

    /** persistLocked; ok tells whether the replacement of the file succeeds. */
    method PersistLocked(ok: bool) returns (r: Option<Error>)
      requires Valid()
      modifies this`disk
      ensures r == if ok then None else Some(NotPersisted)
      ensures if ok then disk.Some? && InSync() else disk == old(disk)
    {
      var list := Listing();
      if !ok {
        return Some(NotPersisted);
      }
      disk := Some(list);
      r := None;
    }

    /** Upsert.  A target that fails a check changes nothing; any other is in
        the table afterwards, and nothing else has changed.  Success means that
        the file holds the table; when the file could not be written the table
        is ahead of it. */
    method Upsert(given: Target, ok: bool) returns (r: Result<Target, Error>)
      requires Valid()
      modifies this
      ensures Valid()
      ensures Check(Normalize(given)).Some? ==>
                r == Err(Check(Normalize(given)).value) && targets == old(targets) && disk == old(disk)
      ensures Check(Normalize(given)).None? ==>
                Trim(given.name) in targets &&
                var stored := targets[Trim(given.name)];
                && stored.transport == "ssh" && stored.port == (if given.port == 0 then 22 else given.port)
                && stored == given.(name := Trim(given.name), transport := "ssh", port := stored.port)
      ensures Check(Normalize(given)).None? ==>
                && r == (if ok then Ok(Normalize(given)) else Err(NotPersisted))
                && targets == old(targets)[Trim(given.name) := Normalize(given)]
                && (ok ==> InSync()) && (!ok ==> disk == old(disk))
    {
      var t := Normalize(given);
      CheckedIsGood(given);
      NormalizeExactly(given);
      if t.name == "" { return Err(NameRequired); }
      if t.name == "local" { return Err(Reserved); }
      if t.transport != "ssh" { return Err(BadTransport); }
      if t.host == "" { return Err(HostRequired); }
      if HasPrefix(t.host, "-") || HasAny(t.host, " \t\r\n") { return Err(BadHost); }
      if HasPrefix(t.user, "-") || HasAny(t.user, " \t\r\n@") { return Err(BadUser); }
      if t.port <= 0 || t.port > 65535 { return Err(BadPort); }
      targets := targets[t.name := t];
      var failed := PersistLocked(ok);
      if failed.Some? {
        return Err(failed.value);
      }
      r := Ok(t);
    }

    method Remove(name: string, ok: bool) returns (r: Option<Error>)
      requires Valid()
      modifies this
      ensures Valid()
      ensures r == if name == "local" then Some(Reserved)
                   else if name !in old(targets) then Some(NotExist)
                   else if ok then None else Some(NotPersisted)
      ensures targets == if name == "local" then old(targets) else old(targets) - {name}
      ensures r.None? ==> InSync()
      ensures r.Some? ==> disk == old(disk)
    {
      if name == "local" {
        return Some(Reserved);
      }
      if name !in targets {
        return Some(NotExist);
      }
      targets := targets - {name};
      r := PersistLocked(ok);
    }

    method Get(name: string) returns (r: Result<Target, Error>)
      requires Valid()
      ensures r.Ok? ==> r.value.name == if name == "" then "local" else name
      ensures r.Ok? <==> name == "" || name == "local" || name in targets
      ensures r.Ok? && r.value != LOCAL ==> Good(r.value) && r.value == targets[name]
      ensures r.Err? ==> r.error == NotExist
      ensures name == "" || name == "local" ==>
                r == Ok(Target("local", "local", "", 0, "", "", "", map[], [], [], true))
    {
      if name == "" || name == "local" {
        return Ok(LOCAL);
      }
      if name !in targets {
        return Err(NotExist);
      }
      r := Ok(targets[name]);
    }

    /** List: the table and the implicit local target, which it cannot hold, by
        strictly increasing name. */
    method List() returns (out: seq<Target>)
      requires Valid()
      ensures "local" !in targets && Lists(out, targets["local" := LOCAL])
    {
      assert "local" !in targets by { NoLocal(targets); }
      ghost var keys;
      out, keys := Collect([LOCAL]);
      WithLocal(keys, out, targets);
      out := SortByName(out);
    }
  }

  lemma NoLocal(m: map<string, Target>)
    requires TableOk(m)
    ensures "local" !in m
  {
    forall n | n in m ensures n != "local" {
      assert Good(m[n]);
    }
  }

  lemma WithLocal(keys: seq<string>, out: seq<Target>, m: map<string, Target>)
    requires TableOk(m) && "local" !in m && multiset(keys) == multiset(m.Keys)
    requires |out| == |keys| + 1 && out[..1] == [LOCAL]
    requires forall i | 0 <= i < |keys| :: keys[i] in m && out[1 + i] == m[keys[i]]
    ensures Lists(SortByName(out), m["local" := LOCAL])
  {
    var all, m' := ["local"] + keys, m["local" := LOCAL];
    LocalKeys(keys, m);
    forall i | 0 <= i < |all| ensures all[i] in m' && out[i] == m'[all[i]] {
      if i > 0 { AtLocal(keys, out, m, i - 1); } else { FirstIsLocal(out, m); }
    }
    KeyedWithLocal(m);
    SortedLists(all, out, m');
  }

  lemma FirstIsLocal(out: seq<Target>, m: map<string, Target>)
    requires out != [] && out[..1] == [LOCAL]
    ensures out[0] == m["local" := LOCAL]["local"]
  {
    assert out[0] == out[..1][0];
  }

  lemma AtLocal(keys: seq<string>, out: seq<Target>, m: map<string, Target>, i: nat)
    requires i < |keys| && |out| == |keys| + 1 && keys[i] in m && keys[i] != "local" && out[1 + i] == m[keys[i]]
    ensures (["local"] + keys)[i + 1] == keys[i] && out[i + 1] == m["local" := LOCAL][keys[i]]
  {
  }

  lemma LocalKeys(keys: seq<string>, m: map<string, Target>)
    requires "local" !in m && multiset(keys) == multiset(m.Keys)
    ensures multiset(["local"] + keys) == multiset(m["local" := LOCAL].Keys)
  {
    assert m["local" := LOCAL].Keys == m.Keys + {"local"};
  }

  lemma KeyedWithLocal(m: map<string, Target>)
    requires Keyed(m)
    ensures Keyed(m["local" := LOCAL])
  {
  }
}
