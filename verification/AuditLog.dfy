/** The audit log: one file of events a day, and the newest events across them. */
module AuditLog {
  import opened Text

  /** day is the event's date as "2006-01-02": ten characters, whose order is
      that of the dates. */
  datatype Event = Event(day: string, record: string)

  function FileName(day: string): string {
    day + ".jsonl"
  }

  function Reverse<T>(s: seq<T>): (r: seq<T>)
    ensures |r| == |s| && forall i | 0 <= i < |s| :: r[i] == s[|s| - 1 - i]
  {
    if s == [] then [] else [s[|s| - 1]] + Reverse(s[..|s| - 1])
  }

  /** The lines that parse. */
  function Parsed(lines: seq<Option<Event>>): seq<Event> {
    if lines == [] then []
    else Parsed(lines[..|lines| - 1]) + (if lines[|lines| - 1].Some? then [lines[|lines| - 1].value] else [])
  }

  /** Lines that do not parse are skipped, and nothing else. */
  lemma {:induction false} ParsedConcat(a: seq<Option<Event>>, b: seq<Option<Event>>)
    ensures Parsed(a + b) == Parsed(a) + Parsed(b)
    ensures Parsed([None]) == [] && forall e: Event :: Parsed([Some(e)]) == [e]
  {
    if b == [] {
      assert a + b == a && Parsed(a) + Parsed(b) == Parsed(a);
    } else {
      assert (a + b)[..|a + b| - 1] == a + b[..|b| - 1];
      ParsedConcat(a, b[..|b| - 1]);
    }
  }

  function OnDay(log: seq<Event>, day: string): seq<Event> {
    if log == [] then []
    else OnDay(log[..|log| - 1], day) + (if log[|log| - 1].day == day then [log[|log| - 1]] else [])
  }

  function NotOnDay(log: seq<Event>, day: string): seq<Event> {
    if log == [] then []
    else NotOnDay(log[..|log| - 1], day) + (if log[|log| - 1].day == day then [] else [log[|log| - 1]])
  }

  /** The newest n events, newest first. */
  function Newest(log: seq<Event>, n: nat): seq<Event> {
    Take(Reverse(log), n)
  }

  lemma NewestExactly(log: seq<Event>, n: nat)
    ensures |Newest(log, n)| == if |log| < n then |log| else n
    ensures forall i | 0 <= i < |Newest(log, n)| :: Newest(log, n)[i] == log[|log| - 1 - i]
  {
    TakeExactly(Reverse(log), n);
  }

  ghost predicate InDateOrder(log: seq<Event>) {
    forall i, j | 0 <= i < j < |log| :: Leq(log[i].day, log[j].day)
  }

  // ------------------------------------------ reading the days newest first

  ghost predicate Descending(days: seq<string>) {
    forall i, j | 0 <= i < j < |days| :: Leq(days[j], days[i]) && days[i] != days[j]
  }

  /** Day by day, each read backwards. */
  function ByDays(log: seq<Event>, days: seq<string>): seq<Event> {
    if days == [] then []
    else ByDays(log, days[..|days| - 1]) + Reverse(OnDay(log, days[|days| - 1]))
  }

  lemma {:induction false} DayMembers(log: seq<Event>, day: string)
    ensures forall e :: e in OnDay(log, day) <==> e in log && e.day == day
    ensures forall e :: e in NotOnDay(log, day) <==> e in log && e.day != day
  {
    if log != [] {
      var init, last := log[..|log| - 1], log[|log| - 1];
      DayMembers(init, day);
      assert log == init + [last];
    }
  }

  lemma {:induction false} OtherDays(log: seq<Event>, day: string, d: string)
    requires d != day
    ensures OnDay(NotOnDay(log, day), d) == OnDay(log, d)
  {
    if log != [] {
      var init, last := log[..|log| - 1], log[|log| - 1];
      OtherDays(init, day, d);
      var kept := NotOnDay(init, day);
      assert kept + [] == kept && (kept + [last])[..|kept|] == kept;
      assert OnDay(init, d) + [] == OnDay(init, d);
    }
  }

  lemma {:induction false} RestInOrder(log: seq<Event>, day: string)
    requires InDateOrder(log)
    ensures InDateOrder(NotOnDay(log, day))
  {
    if log != [] {
      var init, last := log[..|log| - 1], log[|log| - 1];
      RestInOrder(init, day);
      DayMembers(init, day);
      var rest := NotOnDay(init, day);
      forall e | e in rest ensures Leq(e.day, last.day) {
        UpToLast(log, e);
      }
      assert rest + [] == rest;
      OneLater(rest, last);
    }
  }

  lemma UpToLast(log: seq<Event>, e: Event)
    requires InDateOrder(log) && log != [] && e in log[..|log| - 1]
    ensures Leq(e.day, log[|log| - 1].day)
  {
    var i :| 0 <= i < |log| - 1 && log[i] == e;
  }

  lemma OneLater(log: seq<Event>, last: Event)
    requires InDateOrder(log) && forall e | e in log :: Leq(e.day, last.day)
    ensures InDateOrder(log + [last])
  {
    var all := log + [last];
    forall i, j | 0 <= i < j < |all| ensures Leq(all[i].day, all[j].day) {
      assert all[i] == log[i] && log[i] in log;
    }
  }

  /** In date order, the first day's events come first. */
  lemma {:induction false} FirstDaySplits(log: seq<Event>, day: string)
    requires InDateOrder(log) && forall e | e in log :: Leq(day, e.day)
    ensures log == OnDay(log, day) + NotOnDay(log, day)
  {
    if log != [] {
      var init, last := log[..|log| - 1], log[|log| - 1];
      assert forall e | e in init :: e in log;
      FirstDaySplits(init, day);
      if last.day == day { OnlyFirstDay(log, day); }
      SplitOneMore(log, day);
    }
  }

  lemma SplitOneMore(log: seq<Event>, day: string)
    requires log != []
    requires var init := log[..|log| - 1];
             init == OnDay(init, day) + NotOnDay(init, day) && (log[|log| - 1].day == day ==> NotOnDay(init, day) == [])
    ensures log == OnDay(log, day) + NotOnDay(log, day)
  {
    var init, last := log[..|log| - 1], log[|log| - 1];
    assert log == init + [last];
  }

  lemma OnlyFirstDay(log: seq<Event>, day: string)
    requires log != [] && InDateOrder(log) && log[|log| - 1].day == day && forall e | e in log :: Leq(day, e.day)
    ensures NotOnDay(log[..|log| - 1], day) == []
  {
    var init := log[..|log| - 1];
    DayMembers(init, day);
    forall e | e in init ensures e.day == day {
      UpToLast(log, e);
      LeqAntisymmetric(e.day, day);
    }
    AllOnDay(init, day);
  }

  lemma {:induction false} AllOnDay(log: seq<Event>, day: string)
    requires forall e | e in log :: e.day == day
    ensures NotOnDay(log, day) == []
  {
    if log != [] {
      assert log[|log| - 1] in log;
      assert forall e | e in log[..|log| - 1] :: e in log;
      AllOnDay(log[..|log| - 1], day);
    }
  }

  lemma ReverseConcat(a: seq<Event>, b: seq<Event>)
    ensures Reverse(a + b) == Reverse(b) + Reverse(a)
  {
  }

  lemma {:induction false} ByOtherDays(log: seq<Event>, day: string, days: seq<string>)
    requires day !in days
    ensures ByDays(NotOnDay(log, day), days) == ByDays(log, days)
    decreases |days|
  {
    if days != [] {
      OtherDays(log, day, days[|days| - 1]);
      ByOtherDays(log, day, days[..|days| - 1]);
    }
  }

  lemma {:induction false} ByDaysReverses(log: seq<Event>, days: seq<string>)
    requires InDateOrder(log) && Descending(days) && forall e | e in log :: e.day in days
    ensures ByDays(log, days) == Reverse(log)
    decreases |days|
  {
    assert forall i | 0 <= i < |log| :: log[i] in log;
    if days != [] {
      var init, day := days[..|days| - 1], days[|days| - 1];
      assert days == init + [day];
      forall e | e in log ensures Leq(day, e.day) {
        var i :| 0 <= i < |days| && days[i] == e.day;
        if i == |days| - 1 { LeqTotal(day, day); }
      }
      FirstDaySplits(log, day);
      RestInOrder(log, day);
      DayMembers(log, day);
      var rest := NotOnDay(log, day);
      forall e | e in rest ensures e.day in init {
        assert e.day in days;
      }
      ByDaysReverses(rest, init);
      ByOtherDays(log, day, init);
      ReverseConcat(OnDay(log, day), rest);
    }
  }

  lemma {:induction false} ByDaysMembers(log: seq<Event>, days: seq<string>)
    ensures forall e | e in ByDays(log, days) :: e.day in days
    decreases |days|
  {
    if days != [] {
      var init, day := days[..|days| - 1], days[|days| - 1];
      assert days == init + [day];
      ByDaysMembers(log, init);
      DayMembers(log, day);
      ReverseMembers(OnDay(log, day));
    }
  }

  lemma TodayInOrder(log: seq<Event>, day: string)
    ensures InDateOrder(OnDay(log, day))
  {
    DayMembers(log, day);
    var today := OnDay(log, day);
    forall i, j | 0 <= i < j < |today| ensures Leq(today[i].day, today[j].day) {
      assert today[i] in today && today[j] in today;
      LeqTotal(day, day);
    }
  }

  lemma LastDayIsFirst(days: seq<string>, d: string)
    requires Descending(days) && days != [] && d in days[..|days| - 1]
    ensures Leq(days[|days| - 1], d)
  {
    var i :| 0 <= i < |days| - 1 && days[i] == d;
  }

  lemma {:induction false} ByDaysDescends(log: seq<Event>, days: seq<string>)
    requires Descending(days)
    ensures InDateOrder(Reverse(ByDays(log, days)))
    decreases |days|
  {
    if days != [] {
      var init, day := days[..|days| - 1], days[|days| - 1];
      ByDaysDescends(log, init);
      var before, today := ByDays(log, init), OnDay(log, day);
      forall e, f | e in today && f in Reverse(before) ensures Leq(e.day, f.day) {
        DayMembers(log, day);
        ReverseMembers(before);
        ByDaysMembers(log, init);
        LastDayIsFirst(days, f.day);
      }
      TodayInOrder(log, day);
      ConcatInOrder(today, Reverse(before));
      ReverseConcat(before, Reverse(today));
      ReverseTwice(today);
    }
  }

  lemma ReverseMembers<T>(s: seq<T>)
    ensures forall e :: e in Reverse(s) <==> e in s
  {
    forall i | 0 <= i < |s| ensures s[i] in Reverse(s) {
      assert Reverse(s)[|s| - 1 - i] == s[i];
    }
  }

  lemma ConcatInOrder(a: seq<Event>, b: seq<Event>)
    requires InDateOrder(a) && InDateOrder(b) && forall e, f | e in a && f in b :: Leq(e.day, f.day)
    ensures InDateOrder(a + b)
  {
    var all := a + b;
    forall i, j | 0 <= i < j < |all| ensures Leq(all[i].day, all[j].day) {
      if i < |a| && |a| <= j {
        assert all[i] in a && all[j] in b;
      }
    }
  }

  lemma DaysBackwards(log: seq<Event>, days: seq<string>)
    requires Descending(days) && forall e | e in log :: e.day in days
    ensures ByDays(log, days) == Reverse(log) <==> InDateOrder(log)
  {
    if InDateOrder(log) {
      ByDaysReverses(log, days);
    } else {
      ByDaysDescends(log, days);
      ReverseTwice(log);
    }
  }

  lemma ReverseTwice<T>(s: seq<T>)
    ensures Reverse(Reverse(s)) == s
  {
  }

  lemma TakeEnough(a: seq<Event>, b: seq<Event>, n: nat)
    requires a <= b && |a| >= n
    ensures Take(b, n) == Take(a, n)
  {
  }

  // ----------------------------------------------------------- file names

  lemma {:induction false} SuffixOrder(a: string, b: string, suffix: string)
    requires |a| == |b|
    ensures Leq(a + suffix, b + suffix) <==> Leq(a, b)
  {
    var x, y := a + suffix, b + suffix;
    if a == "" {
      LeqTotal(suffix, suffix);
      assert x == y == suffix;
    } else {
      assert x[1..] == a[1..] + suffix && y[1..] == b[1..] + suffix;
      SuffixOrder(a[1..], b[1..], suffix);
    }
  }

  predicate IsDay(day: string) {
    |day| == 10
  }

  /** names are the day files of days, newest first. */
  ghost predicate NamesOf(names: seq<string>, days: seq<string>) {
    |names| == |days| && forall i | 0 <= i < |days| :: IsDay(days[i]) && names[i] == FileName(days[i])
  }

  lemma DaysDescend(names: seq<string>, days: seq<string>)
    requires NamesOf(names, days) && Descending(names)
    ensures Descending(days)
  {
    forall i, j | 0 <= i < j < |days| ensures Leq(days[j], days[i]) && days[i] != days[j] {
      SuffixOrder(days[j], days[i], ".jsonl");
      assert names[i] != names[j];
    }
  }

  // ------------------------------------------------------------ the logger

  type Files = map<string, seq<Option<Event>>>

  /** A day file holds its day's events in order. */
  ghost predicate FileHolds(files: Files, log: seq<Event>, name: string)
    requires name in files
  {
    EndsIn(name, ".jsonl") ==> IsDay(name[..|name| - 6]) && Parsed(files[name]) == OnDay(log, name[..|name| - 6])
  }

  /** So do all, there is one for every day with events, and there is no other
      .jsonl file. */
  ghost predicate Holds(files: Files, log: seq<Event>) {
    && (forall e | e in log :: IsDay(e.day) && FileName(e.day) in files)
    && (forall name | name in files :: FileHolds(files, log, name))
  }

  function Appended(files: Files, ev: Event): Files {
    files[FileName(ev.day) := (if FileName(ev.day) in files then files[FileName(ev.day)] else []) + [Some(ev)]]
  }

  lemma AppendHolds(files: Files, log: seq<Event>, ev: Event)
    requires Holds(files, log) && IsDay(ev.day)
    ensures Holds(Appended(files, ev), log + [ev])
  {
    forall name | name in Appended(files, ev) ensures FileHolds(Appended(files, ev), log + [ev], name) {
      if name == FileName(ev.day) {
        AppendToday(files, log, ev);
      } else if EndsIn(name, ".jsonl") {
        assert FileHolds(files, log, name);
        assert name == name[..|name| - 6] + ".jsonl";
        assert (log + [ev])[..|log|] == log;
      }
    }
  }

  lemma AppendToday(files: Files, log: seq<Event>, ev: Event)
    requires Holds(files, log) && IsDay(ev.day)
    ensures FileHolds(Appended(files, ev), log + [ev], FileName(ev.day))
  {
    var name := FileName(ev.day);
    assert name[..|name| - 6] == ev.day;
    var lines := if name in files then files[name] else [];
    if name in files {
      assert FileHolds(files, log, name) && EndsIn(name, ".jsonl");
    } else {
      NothingOnDay(log, ev.day);
    }
    assert (lines + [Some(ev)])[..|lines|] == lines && (log + [ev])[..|log|] == log;
  }

  /** The names Tail reads, in its order. */
  ghost function Names(files: Files): seq<string> {
    Reverse(SortedKeys(set name | name in files && EndsIn(name, ".jsonl")))
  }

  lemma NamesDescend(files: Files)
    ensures Descending(Names(files))
    ensures forall name :: name in Names(files) <==> name in files && EndsIn(name, ".jsonl")
  {
    var keys := set name | name in files && EndsIn(name, ".jsonl");
    NoRepeats(SortedKeys(keys), keys);
    ReverseMembers(SortedKeys(keys));
    ReverseDescends(SortedKeys(keys));
  }

  /** File by file, the events of each backwards. */
  function ByFiles(files: Files, names: seq<string>): seq<Event> {
    if names == [] then []
    else
      var name := names[|names| - 1];
      ByFiles(files, names[..|names| - 1]) + (if name in files then Reverse(Parsed(files[name])) else [])
  }

  lemma {:induction false} ByFilesSplit(files: Files, names: seq<string>, k: nat)
    requires k <= |names|
    ensures ByFiles(files, names[..k]) <= ByFiles(files, names)
    decreases |names|
  {
    if k < |names| {
      var init := names[..|names| - 1];
      assert init[..k] == names[..k];
      ByFilesSplit(files, init, k);
    } else {
      assert names[..k] == names;
    }
  }

  lemma {:induction false} ByFilesIsByDays(files: Files, log: seq<Event>, names: seq<string>, days: seq<string>)
    requires |names| == |days|
    requires forall i | 0 <= i < |names| :: names[i] in files && Parsed(files[names[i]]) == OnDay(log, days[i])
    ensures ByFiles(files, names) == ByDays(log, days)
    decreases |names|
  {
    if names != [] {
      ByFilesIsByDays(files, log, names[..|names| - 1], days[..|days| - 1]);
    }
  }

  /** Reading the day files newest first gives the history backwards exactly
      when the dates of successive events never went back. */
  lemma BackwardsExactlyInOrder(files: Files, log: seq<Event>)
    requires Holds(files, log)
    ensures ByFiles(files, Names(files)) == Reverse(log) <==> InDateOrder(log)
  {
    var names := Names(files);
    NamesDescend(files);
    var days := DaysExist(files, log, names);
    DaysDescend(names, days);
    Covered(files, log, names, days);
    ByFilesIsByDays(files, log, names, days);
    DaysBackwards(log, days);
  }

  /** The days of the names of day files. */
  lemma Covered(files: Files, log: seq<Event>, names: seq<string>, days: seq<string>)
    requires Holds(files, log) && NamesOf(names, days)
    requires forall name :: name in names <==> name in files && EndsIn(name, ".jsonl")
    ensures forall e | e in log :: e.day in days
    ensures forall i | 0 <= i < |names| :: names[i] in files && Parsed(files[names[i]]) == OnDay(log, days[i])
  {
    forall e | e in log ensures e.day in days {
      assert EndsIn(FileName(e.day), ".jsonl");
      var j :| 0 <= j < |names| && names[j] == FileName(e.day);
      assert days[j] == FileName(days[j])[..10] == FileName(e.day)[..10] == e.day;
    }
    forall i | 0 <= i < |names| ensures names[i] in files && Parsed(files[names[i]]) == OnDay(log, days[i]) {
      assert names[i] in names;
      assert FileHolds(files, log, names[i]) && FileName(days[i])[..|FileName(days[i])| - 6] == days[i];
    }
  }

  lemma DaysExist(files: Files, log: seq<Event>, names: seq<string>) returns (days: seq<string>)
    requires Holds(files, log)
    requires forall name | name in names :: name in files && EndsIn(name, ".jsonl")
    ensures NamesOf(names, days)
  {
    days := seq(|names|, i requires 0 <= i < |names| => if |names[i]| >= 6 then names[i][..|names[i]| - 6] else "");
    forall i | 0 <= i < |names| ensures IsDay(days[i]) && names[i] == FileName(days[i]) {
      assert names[i] in names && FileHolds(files, log, names[i]);
    }
  }

  class Logger {
    var files: Files
    ghost var log: seq<Event>         // every event appended

    ghost predicate Valid()
      reads this
    {
      Holds(files, log)
    }

    constructor ()
      ensures Valid() && log == []
    {
      files, log := map[], [];
    }

    method Append(ev: Event, ok: bool)
      requires Valid() && IsDay(ev.day)
      modifies this
      ensures Valid()
      ensures log == if ok then old(log) + [ev] else old(log)
      ensures files == if ok then Appended(old(files), ev) else old(files)
      ensures ok ==>
        var name := ev.day + ".jsonl";
        && name in files && files == old(files)[name := files[name]]
        && files[name] == (if name in old(files) then old(files)[name] else []) + [Some(ev)]
    {
      if !ok { return; }
      AppendHolds(files, log, ev);
      var name := FileName(ev.day);
      var lines := if name in files then files[name] else [];
      files := files[name := lines + [Some(ev)]];
      log := log + [ev];
    }

    method DayFiles() returns (names: seq<string>)
      ensures names == Names(files)
    {
      var entries := KeysInSomeOrder(files.Keys);
      NoRepeats(entries, files.Keys);
      var found: seq<string> := [];
      for i := 0 to |entries|
        invariant forall name :: name in found <==> name in entries[..i] && EndsIn(name, ".jsonl")
        invariant AllDifferent(found)
      {
        var name := entries[i];
        assert entries[..i + 1] == entries[..i] + [name];
        assert name !in entries[..i];
        ExtIs(name, ".jsonl");
        if Ext(name) == ".jsonl" {
          found := found + [name];
        }
      }
      assert entries[..|entries|] == entries;
      SortIsKeys(found, set name | name in files && EndsIn(name, ".jsonl"));
      names := Reverse(Sort(found));
    }

    /** The newest n events of the files, for n = limit, or 100 when that is out
        of range.  If the events' dates never went back they are the newest n
        events logged, newest first. */
    method Tail(limit: int) returns (out: seq<Event>)
      requires Valid()
      ensures var n := if limit <= 0 || limit > 1000 then 100 else limit;
              out == Take(ByFiles(files, Names(files)), n) && (InDateOrder(log) ==> out == Newest(log, n))
    {
      var n := if limit <= 0 || limit > 1000 then 100 else limit;
      BackwardsExactlyInOrder(files, log);
      var names := DayFiles();
      NamesDescend(files);
      out := ReadFiles(names, n);
    }

    /** The outer loop: file by file until there are n. */
    method ReadFiles(names: seq<string>, n: nat) returns (out: seq<Event>)
      requires forall name | name in names :: name in files
      ensures out == Take(ByFiles(files, names), n)
    {
      out := [];
      var i := 0;
      while i < |names| && |out| < n
        invariant i <= |names|
        invariant out == Take(ByFiles(files, names[..i]), n)
      {
        assert names[i] in names;
        assert names[..i + 1][..i] == names[..i];
        out := AppendBackwards(out, ByFiles(files, names[..i]), Parsed(files[names[i]]), n);
        i := i + 1;
      }
      ByFilesSplit(files, names, i);
      if i == |names| {
        assert names[..i] == names;
      } else {
        TakeEnough(ByFiles(files, names[..i]), ByFiles(files, names), n);
      }
    }
  }

  /** Sorting the members of a set, each listed once, is sorting the set. */
  lemma SortIsKeys(s: seq<string>, keys: set<string>)
    requires AllDifferent(s) && forall x :: x in s <==> x in keys
    ensures Sort(s) == SortedKeys(keys)
  {
    OnceIsSet(s);
    assert (set x | x in s) == keys;
    SortedUnique(Sort(s), SortedKeys(keys));
  }

  /** The inner loop: a file's events from its end, until there are n. */
  method AppendBackwards(so: seq<Event>, ghost all: seq<Event>, events: seq<Event>, n: nat) returns (out: seq<Event>)
    requires so == Take(all, n) && |so| < n
    ensures out == Take(all + Reverse(events), n)
  {
    out := so;
    var i := |events| - 1;
    while i >= 0 && |out| < n
      invariant -1 <= i < |events| && |out| <= n
      invariant out == all + Reverse(events)[..|events| - 1 - i]
    {
      assert Reverse(events)[..|events| - i] == Reverse(events)[..|events| - 1 - i] + [events[i]];
      out := out + [events[i]];
      i := i - 1;
    }
    assert |out| < n ==> Reverse(events)[..|events|] == Reverse(events);
  }

  lemma {:induction false} NothingOnDay(log: seq<Event>, day: string)
    requires forall e | e in log :: e.day != day
    ensures OnDay(log, day) == []
  {
    if log != [] {
      assert log[|log| - 1] in log;
      assert forall e | e in log[..|log| - 1] :: e in log;
      NothingOnDay(log[..|log| - 1], day);
    }
  }

  lemma ReverseDescends(s: seq<string>)
    requires Sorted(s) && AllDifferent(s)
    ensures Descending(Reverse(s))
  {
    var back := Reverse(s);
    forall i, j | 0 <= i < j < |back| ensures Leq(back[j], back[i]) && back[i] != back[j] {
      assert back[i] == s[|s| - 1 - i] && back[j] == s[|s| - 1 - j];
    }
  }
}
