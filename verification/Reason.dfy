/** The reason every tool call must carry: where clients put it, how it is
    moved into the arguments, validated, and taken out again before the handler
    sees them.  JSON texts are taken as parsed, members in order and possibly
    repeated (RFC 8259, section 4). */
module Reason {
  import opened Text

  datatype Json = Null | Bool(b: bool) | Number(text: string) | Str(s: string)
                | Array(items: seq<Json>) | Object(members: seq<(string, Json)>)

  type Members = seq<(string, Json)>

  /** How a text that starts with an object goes on. */
  datatype Ending = Closed | Trailing | Broken

  /** A raw message: no bytes, not one JSON value, a value that is not an
      object, or an object read member by member. */
  datatype Raw = Empty | Garbage | Other(v: Json) | Obj(members: Members, ending: Ending)

  // ------------------------------------------------------- object <-> map

  /** Decoding into a Go map: the last member of a name wins. */
  function MapOf(ms: Members): map<string, Json> {
    if ms == [] then map[]
    else MapOf(ms[..|ms| - 1])[ms[|ms| - 1].0 := ms[|ms| - 1].1]
  }

  /** Member i is the last of that name. */
  predicate IsLast(ms: Members, i: int, name: string) {
    0 <= i < |ms| && ms[i].0 == name && forall j | i < j < |ms| :: ms[j].0 != name
  }

  /** The last member of a name gives the map its value. */
  lemma {:induction false} LastMemberWins(ms: Members, i: nat)
    requires i < |ms| && forall j | i < j < |ms| :: ms[j].0 != ms[i].0
    ensures ms[i].0 in MapOf(ms) && MapOf(ms)[ms[i].0] == ms[i].1
  {
    var front := ms[..|ms| - 1];
    if i < |front| {
      assert front[i] == ms[i] && forall j | i < j < |front| :: front[j] == ms[j];
      LastMemberWins(front, i);
    }
  }

  /** And every name of the map has a last member. */
  lemma {:induction false} EveryNameHasLast(ms: Members, name: string)
    requires name in MapOf(ms)
    ensures exists i :: IsLast(ms, i, name) && MapOf(ms)[name] == ms[i].1
  {
    var n := |ms| - 1;
    var front := ms[..n];
    if ms[n].0 == name {
      assert IsLast(ms, n, name);
    } else {
      EveryNameHasLast(front, name);
      var i :| IsLast(front, i, name) && MapOf(front)[name] == front[i].1;
      assert ms[i] == front[i] && forall j | i < j < n :: ms[j] == front[j];
      assert IsLast(ms, i, name);
    }
  }

  lemma NamedIff(ms: Members, name: string)
    ensures name in MapOf(ms) <==> exists i :: IsLast(ms, i, name)
    ensures forall i | IsLast(ms, i, name) :: name in MapOf(ms) && MapOf(ms)[name] == ms[i].1
  {
    if name in MapOf(ms) { EveryNameHasLast(ms, name); }
    forall i | IsLast(ms, i, name) ensures name in MapOf(ms) && MapOf(ms)[name] == ms[i].1 {
      LastMemberWins(ms, i);
    }
  }

  /** Encoding a Go map: the keys in ascending order. */
  ghost function Encode(m: map<string, Json>): Members {
    EncodeKeys(SortedKeys(m.Keys), m)
  }

  ghost function EncodeKeys(keys: seq<string>, m: map<string, Json>): Members {
    seq(|keys|, i requires 0 <= i < |keys| => (keys[i], if keys[i] in m then m[keys[i]] else Null))
  }

  lemma {:induction false} MapOfKeys(keys: seq<string>, m: map<string, Json>)
    requires forall k | k in keys :: k in m
    ensures MapOf(EncodeKeys(keys, m)) == map k | k in keys :: m[k]
  {
    if keys != [] {
      var front := keys[..|keys| - 1];
      assert forall k | k in front :: k in keys;
      MapOfKeys(front, m);
      assert EncodeKeys(keys, m)[..|keys| - 1] == EncodeKeys(front, m);
      assert keys == front + [keys[|keys| - 1]];
    }
  }

  lemma DecodeEncode(m: map<string, Json>)
    ensures MapOf(Encode(m)) == m
  {
    NoRepeats(SortedKeys(m.Keys), m.Keys);
    MapOfKeys(SortedKeys(m.Keys), m);
  }

  function Occurrences(ms: Members, name: string): (n: nat)
    ensures n > 0 <==> name in MapOf(ms)
  {
    if ms == [] then 0
    else Occurrences(ms[..|ms| - 1], name) + if ms[|ms| - 1].0 == name then 1 else 0
  }

  /** Encoding never repeats a name. */
  lemma {:induction false} EncodedOnce(keys: seq<string>, m: map<string, Json>, name: string)
    requires forall i, j | 0 <= i < j < |keys| :: keys[i] != keys[j]
    ensures Occurrences(EncodeKeys(keys, m), name) == if name in keys then 1 else 0
  {
    if keys != [] {
      var front := keys[..|keys| - 1];
      EncodedOnce(front, m, name);
      assert EncodeKeys(keys, m)[..|keys| - 1] == EncodeKeys(front, m);
      assert keys == front + [keys[|keys| - 1]];
    }
  }

  lemma {:induction false} NoOccurrence(ms: Members, name: string)
    ensures Occurrences(ms, name) == 0 <==> forall i | 0 <= i < |ms| :: ms[i].0 != name
  {
    if ms != [] {
      NoOccurrence(ms[..|ms| - 1], name);
    }
  }

  /** Member i is the only one of that name. */
  predicate IsOnly(ms: Members, i: int, name: string) {
    0 <= i < |ms| && ms[i].0 == name && forall j | 0 <= j < |ms| && j != i :: ms[j].0 != name
  }

  predicate AreTwo(ms: Members, i: int, j: int, name: string) {
    0 <= i < j < |ms| && ms[i].0 == name && ms[j].0 == name
  }

  lemma {:induction false} OnlyCounts(ms: Members, i: int, name: string)
    requires IsOnly(ms, i, name)
    ensures Occurrences(ms, name) == 1
  {
    var n := |ms| - 1;
    if i == n {
      NoOccurrence(ms[..n], name);
    } else {
      OnlyCounts(ms[..n], i, name);
    }
  }

  lemma {:induction false} TwoCount(ms: Members, i: int, j: int, name: string)
    requires AreTwo(ms, i, j, name)
    ensures Occurrences(ms, name) >= 2
  {
    var n := |ms| - 1;
    if j == n {
      NoOccurrence(ms[..n], name);
      assert ms[..n][i].0 == name;
    } else {
      TwoCount(ms[..n], i, j, name);
    }
  }

  lemma {:induction false} FirstOccurrence(ms: Members, name: string) returns (i: nat)
    requires Occurrences(ms, name) >= 1
    ensures i < |ms| && ms[i].0 == name
    ensures Occurrences(ms, name) == 1 ==> IsOnly(ms, i, name)
    ensures Occurrences(ms, name) >= 2 ==> exists j :: AreTwo(ms, i, j, name)
  {
    var n := |ms| - 1;
    var front := ms[..n];
    if Occurrences(front, name) == 0 {
      NoOccurrence(front, name);
      assert forall j | 0 <= j < n :: ms[j] == front[j];
      i := n;
    } else {
      i := FirstOccurrence(front, name);
      if ms[n].0 == name {
        assert AreTwo(ms, i, n, name);
      } else if Occurrences(front, name) == 1 {
        assert forall j | 0 <= j < n && j != i :: ms[j] == front[j];
      } else {
        var j :| AreTwo(front, i, j, name);
        assert AreTwo(ms, i, j, name);
      }
    }
  }

  /** Counting, said of places. */
  lemma OccurrencesExactly(ms: Members, name: string)
    ensures Occurrences(ms, name) == 1 <==> exists i :: IsOnly(ms, i, name)
    ensures Occurrences(ms, name) >= 2 <==> exists i, j :: AreTwo(ms, i, j, name)
  {
    if Occurrences(ms, name) >= 1 {
      var _ := FirstOccurrence(ms, name);
    }
    if i :| IsOnly(ms, i, name) { OnlyCounts(ms, i, name); }
    if i, j :| AreTwo(ms, i, j, name) { TwoCount(ms, i, j, name); }
  }

  // ----------------------------------------------------------- validation

  /** strings.TrimSpace's notion of space (Unicode White_Space). */
  predicate IsSpace(c: char) {
    c in " \t\n\r\U{000B}\U{000C}\U{0085}\U{00A0}\U{1680}\U{2028}\U{2029}\U{202F}\U{205F}\U{3000}"
    || '\U{2000}' <= c <= '\U{200A}'
  }

  lemma SpacesExactly(c: char)
    ensures IsSpace(c) <==>
              || 9 <= c as int <= 13 || c as int == 32 || c as int == 0x85 || c as int == 0xA0 || c as int == 0x1680
              || 0x2000 <= c as int <= 0x200A || 0x2028 <= c as int <= 0x2029
              || c as int == 0x202F || c as int == 0x205F || c as int == 0x3000
  {
  }

  /** A JSON string with something other than space in it. */
  ghost predicate NonBlank(v: Json) {
    v.Str? && exists c | c in v.s :: !IsSpace(c)
  }

  datatype ReasonError = Required | Duplicated

  /** What validateReason must answer. */
  ghost function Check(raw: Raw): Option<ReasonError> {
    if raw.Obj? && Occurrences(raw.members, "reason") >= 2 then Some(Duplicated)
    else if raw.Obj? && raw.ending.Closed? && Occurrences(raw.members, "reason") == 1
            && NonBlank(MapOf(raw.members)["reason"]) then None
    else Some(Required)
  }

  /** The answer, said of the places of the members named reason. */
  lemma CheckExactly(raw: Raw)
    ensures Check(raw) == Some(Duplicated) <==> raw.Obj? && exists i, j :: AreTwo(raw.members, i, j, "reason")
    ensures Check(raw) == None <==>
              raw.Obj? && raw.ending.Closed? && exists i :: IsOnly(raw.members, i, "reason") && NonBlank(raw.members[i].1)
  {
    if raw.Obj? {
      OccurrencesExactly(raw.members, "reason");
      forall i | IsOnly(raw.members, i, "reason")
        ensures "reason" in MapOf(raw.members) && MapOf(raw.members)["reason"] == raw.members[i].1
      {
        LastMemberWins(raw.members, i);
      }
    }
  }

  /** validateReason: one pass over the members, stopping at a second reason
      whatever comes after it. */
  method ValidateReason(raw: Raw) returns (err: Option<ReasonError>)
    ensures err == Check(raw)
    ensures err == Some(Duplicated) <==> raw.Obj? && exists i, j :: AreTwo(raw.members, i, j, "reason")
    ensures err == None <==>
              raw.Obj? && raw.ending.Closed? && exists i :: IsOnly(raw.members, i, "reason") && NonBlank(raw.members[i].1)
  {
    CheckExactly(raw);
    if !raw.Obj? {
      return Some(Required);
    }
    var reason, found := Null, false;
    var i := 0;
    assert raw.members[..|raw.members|] == raw.members;
    while i < |raw.members|
      invariant 0 <= i <= |raw.members|
      invariant Occurrences(raw.members[..i], "reason") == if found then 1 else 0
      invariant found ==> "reason" in MapOf(raw.members[..i]) && reason == MapOf(raw.members[..i])["reason"]
    {
      var (key, value) := raw.members[i];
      assert raw.members[..i + 1][..i] == raw.members[..i];
      if key == "reason" {
        if found {
          OccurrencesGrow(raw.members, i + 1, "reason");
          return Some(Duplicated);
        }
        found := true;
        reason := value;
      }
      i := i + 1;
    }
    if !raw.ending.Closed? || !found {
      return Some(Required);
    }
    var blank := Blank(reason);
    return if blank then Some(Required) else None;
  }

  method Blank(v: Json) returns (blank: bool)
    ensures blank <==> !NonBlank(v)
  {
    if !v.Str? {
      return true;
    }
    for i := 0 to |v.s|
      invariant forall k | 0 <= k < i :: IsSpace(v.s[k])
    {
      if !IsSpace(v.s[i]) {
        assert v.s[i] in v.s;
        return false;
      }
    }
    return true;
  }

  lemma {:induction false} OccurrencesGrow(ms: Members, i: nat, name: string)
    requires i <= |ms|
    ensures Occurrences(ms[..i], name) <= Occurrences(ms, name)
  {
    if i == |ms| {
      assert ms[..i] == ms;
    } else {
      assert ms[..|ms| - 1][..i] == ms[..i];
      OccurrencesGrow(ms[..|ms| - 1], i, name);
    }
  }

  /** stripReason */
  ghost function Strip(raw: Raw): Raw {
    if raw.Obj? && raw.ending.Closed? then Obj(Encode(MapOf(raw.members) - {"reason"}), Closed) else raw
  }

  // ---------------------------------------------------------- translation

  datatype CallParams = CallParams(arguments: Raw, reason: Option<Json>, meta: map<string, Json>)
  datatype Mode = Mode(strict: bool, compatMissingReason: bool)

  const FALLBACK := Str("compatibility fallback: MCP client omitted required reason")

  /** A reason placed beside the arguments wins over one inside _meta. */
  function Beside(p: CallParams): Option<Json> {
    if p.reason.Some? then p.reason
    else if "reason" in p.meta then Some(p.meta["reason"])
    else None
  }

  /** compatibleArguments */
  ghost function Compatible(p: CallParams, mode: Mode): Raw {
    if !(p.arguments.Empty? || (p.arguments.Obj? && p.arguments.ending.Closed?)) then p.arguments
    else
      var args := if p.arguments.Empty? then map[] else MapOf(p.arguments.members);
      if "reason" in args then p.arguments
      else
        match Beside(p)
        case Some(reason) => Obj(Encode(args["reason" := reason]), Closed)
        case None =>
          if !mode.compatMissingReason || mode.strict then p.arguments
          else Obj(Encode(args["reason" := FALLBACK]), Closed)
  }

  /** Registry.Call takes absent and null arguments as an empty object. */
  function Defaulted(raw: Raw): Raw {
    if raw.Empty? || raw == Other(Null) then Obj([], Closed) else raw
  }

  /** The arguments interceptors see, if the call gets past validation. */
  ghost function Validated(p: CallParams, mode: Mode): Result<Raw, ReasonError> {
    var args := Defaulted(Compatible(p, mode));
    match Check(args)
    case None => Ok(args)
    case Some(e) => Err(e)
  }

  // -------------------------------------------------------- main theorems

  /** The arguments the client meant to pass, besides the reason. */
  function ClientArguments(p: CallParams): map<string, Json> {
    (if p.arguments.Obj? then MapOf(p.arguments.members) else map[]) - {"reason"}
  }

  /** When a call must be let through, said of what the client sent: absent or
      object arguments, and one reason in the first place that has any: inside
      the arguments, beside them, in _meta, or, if allowed, nowhere. */
  ghost predicate Acceptable(p: CallParams, mode: Mode) {
    && (p.arguments.Empty? || (p.arguments.Obj? && p.arguments.ending.Closed?))
    && if p.arguments.Obj? && exists m | m in p.arguments.members :: m.0 == "reason" then
         exists i :: IsOnly(p.arguments.members, i, "reason") && NonBlank(p.arguments.members[i].1)
       else if p.reason.Some? then NonBlank(p.reason.value)
       else if "reason" in p.meta then NonBlank(p.meta["reason"])
       else mode.compatMissingReason && !mode.strict
  }

  lemma {:induction false} EncodedMembers(m: map<string, Json>)
    ensures forall k, v :: (k, v) in Encode(m) <==> k in m && m[k] == v
    ensures forall i, j | 0 <= i < j < |Encode(m)| :: Encode(m)[i].0 != Encode(m)[j].0
  {
    var keys := SortedKeys(m.Keys);
    NoRepeats(keys, m.Keys);
    forall k, v ensures (k, v) in Encode(m) <==> k in m && m[k] == v {
      if k in m && m[k] == v {
        assert k in keys;
        var i :| 0 <= i < |keys| && keys[i] == k;
        assert Encode(m)[i] == (k, v);
      }
    }
  }

  lemma EncodedReason(m: map<string, Json>)
    requires "reason" in m
    ensures Occurrences(Encode(m), "reason") == 1 && MapOf(Encode(m)) == m
  {
    var keys := SortedKeys(m.Keys);
    NoRepeats(keys, m.Keys);
    EncodedOnce(keys, m, "reason");
    DecodeEncode(m);
  }

  lemma FallbackNonBlank()
    ensures NonBlank(FALLBACK)
  {
    assert 'n' in FALLBACK.s && !IsSpace('n');
  }

  function ArgumentMap(p: CallParams): map<string, Json> {
    if p.arguments.Obj? then MapOf(p.arguments.members) else map[]
  }

  /** The reason a client's call carries, from the first place that has one. */
  function CarriedReason(p: CallParams, mode: Mode): Option<Json> {
    if "reason" in ArgumentMap(p) then Some(ArgumentMap(p)["reason"])
    else if Beside(p).Some? then Beside(p)
    else if mode.compatMissingReason && !mode.strict then Some(FALLBACK)
    else None
  }

  predicate ObjectLike(raw: Raw) {
    raw.Empty? || (raw.Obj? && raw.ending.Closed?)
  }

  /** With no reason inside, translation puts the carried one in. */
  lemma Translated(p: CallParams, mode: Mode)
    requires ObjectLike(p.arguments) && "reason" !in ArgumentMap(p) && CarriedReason(p, mode).Some?
    ensures var args := Defaulted(Compatible(p, mode));
            && args.Obj? && args.ending.Closed? && Occurrences(args.members, "reason") == 1
            && MapOf(args.members) == ArgumentMap(p)["reason" := CarriedReason(p, mode).value]
  {
    EncodedReason(ArgumentMap(p)["reason" := CarriedReason(p, mode).value]);
  }

  lemma Untranslated(p: CallParams, mode: Mode)
    requires !ObjectLike(p.arguments) || "reason" in ArgumentMap(p) || CarriedReason(p, mode).None?
    ensures Compatible(p, mode) == p.arguments
  {
  }

  /** Translation and validation together: a call is let through exactly when
      it is acceptable as the client sent it. */
  lemma AcceptedExactly(p: CallParams, mode: Mode)
    ensures Validated(p, mode).Ok? <==> Acceptable(p, mode)
  {
    InsideExactly(p);
    if ObjectLike(p.arguments) && "reason" !in ArgumentMap(p) && CarriedReason(p, mode).Some? {
      Translated(p, mode);
      FallbackNonBlank();
    } else {
      Untranslated(p, mode);
      CheckExactly(Defaulted(p.arguments));
    }
  }

  lemma InsideExactly(p: CallParams)
    ensures "reason" in ArgumentMap(p) <==>
              p.arguments.Obj? && exists m | m in p.arguments.members :: m.0 == "reason"
  {
    if p.arguments.Obj? {
      NoOccurrence(p.arguments.members, "reason");
    }
  }

  /** The client's arguments, said of their members: what is passed on under
      a name is the value of its last member. */
  lemma ClientArgumentsExactly(p: CallParams, k: string)
    ensures k in ClientArguments(p) <==>
              k != "reason" && p.arguments.Obj? && exists i :: IsLast(p.arguments.members, i, k)
    ensures k != "reason" && p.arguments.Obj? ==>
              forall i | IsLast(p.arguments.members, i, k) ::
                k in ClientArguments(p) && ClientArguments(p)[k] == p.arguments.members[i].1
  {
    if p.arguments.Obj? {
      NamedIff(p.arguments.members, k);
    }
  }

  lemma PassedOn(p: CallParams, k: string, v: Json)
    ensures k in ClientArguments(p) && ClientArguments(p)[k] == v <==>
              k != "reason" && p.arguments.Obj? && exists i :: IsLast(p.arguments.members, i, k) && p.arguments.members[i].1 == v
  {
    ClientArgumentsExactly(p, k);
  }

  lemma PassedOnExactly(p: CallParams)
    ensures forall k, v :: (k, v) in Encode(ClientArguments(p)) <==>
              && k != "reason" && p.arguments.Obj?
              && exists i :: IsLast(p.arguments.members, i, k) && p.arguments.members[i].1 == v
    ensures var ms := Encode(ClientArguments(p)); forall i, j | 0 <= i < j < |ms| :: ms[i].0 != ms[j].0
  {
    EncodedMembers(ClientArguments(p));
    forall k, v
      ensures (k, v) in Encode(ClientArguments(p)) <==>
                && k != "reason" && p.arguments.Obj?
                && exists i :: IsLast(p.arguments.members, i, k) && p.arguments.members[i].1 == v
    {
      PassedOn(p, k, v);
    }
  }

  /** The reason interceptors see is a non-blank string, and comes from the
      first place that has one: inside the arguments, beside them, in _meta,
      or the text for clients that send none. */
  lemma ReasonSeen(p: CallParams, mode: Mode, r: Json)
    requires Validated(p, mode).Ok? && ("reason", r) in Validated(p, mode).value.members
    ensures r.Str? && exists c | c in r.s :: !IsSpace(c)
    ensures if p.arguments.Obj? && exists m | m in p.arguments.members :: m.0 == "reason" then
              ("reason", r) in p.arguments.members
            else if p.reason.Some? then r == p.reason.value
            else if "reason" in p.meta then r == p.meta["reason"]
            else mode.compatMissingReason && !mode.strict && r == Str("compatibility fallback: MCP client omitted required reason")
  {
    InsideExactly(p);
    var seen := Validated(p, mode).value;
    CheckExactly(seen);
    var i :| IsOnly(seen.members, i, "reason") && NonBlank(seen.members[i].1);
    LastMemberWins(seen.members, i);
    if ObjectLike(p.arguments) && "reason" !in ArgumentMap(p) && CarriedReason(p, mode).Some? {
      Translated(p, mode);
    } else {
      Untranslated(p, mode);
    }
  }

  lemma StrippedIsClients(p: CallParams, mode: Mode)
    requires Validated(p, mode).Ok?
    ensures var seen := Validated(p, mode).value;
            && seen.Obj? && seen.ending.Closed? && Occurrences(seen.members, "reason") == 1
            && CarriedReason(p, mode) == Some(MapOf(seen.members)["reason"])
            && NonBlank(MapOf(seen.members)["reason"])
            && Strip(seen) == Obj(Encode(ClientArguments(p)), Closed)
            && MapOf(Strip(seen).members) == ClientArguments(p)
  {
    var seen := Validated(p, mode).value;
    if ObjectLike(p.arguments) && "reason" !in ArgumentMap(p) && CarriedReason(p, mode).Some? {
      Translated(p, mode);
    } else {
      Untranslated(p, mode);
    }
    assert MapOf(seen.members) - {"reason"} == ClientArguments(p);
    DecodeEncode(ClientArguments(p));
  }

  /** Whatever place the reason came from, interceptors see one top-level
      reason, a non-blank string, and the handler sees exactly the client's
      arguments without it: for each other name the client sent, once, the
      value of its last member, and no other name. */
  lemma HandlerSeesClientArguments(p: CallParams, mode: Mode)
    requires Validated(p, mode).Ok?
    ensures var seen := Validated(p, mode).value;
            && seen.Obj? && seen.ending.Closed? && Occurrences(seen.members, "reason") == 1
            && CarriedReason(p, mode) == Some(MapOf(seen.members)["reason"])
            && NonBlank(MapOf(seen.members)["reason"])
            && Strip(seen) == Obj(Encode(ClientArguments(p)), Closed)
            && MapOf(Strip(seen).members) == ClientArguments(p)
    ensures var handed := Strip(Validated(p, mode).value);
            && (forall k, v :: (k, v) in handed.members <==>
                  && k != "reason" && p.arguments.Obj?
                  && exists i :: IsLast(p.arguments.members, i, k) && p.arguments.members[i].1 == v)
            && (forall i, j | 0 <= i < j < |handed.members| :: handed.members[i].0 != handed.members[j].0)
  {
    StrippedIsClients(p, mode);
    PassedOnExactly(p);
  }

  /** Translation touches a call exactly when its arguments are absent or an
      object, hold no reason, and one is to be had elsewhere.  So a reason
      inside the arguments is never overridden, and arguments that are not an
      object are never made into one. */
  lemma TranslatedExactly(p: CallParams, mode: Mode)
    ensures Compatible(p, mode) != p.arguments <==>
              && (p.arguments.Empty? || (p.arguments.Obj? && p.arguments.ending.Closed?))
              && (p.arguments.Obj? ==> Occurrences(p.arguments.members, "reason") == 0)
              && (p.reason.Some? || "reason" in p.meta || (mode.compatMissingReason && !mode.strict))
  {
    if ObjectLike(p.arguments) && "reason" !in ArgumentMap(p) && CarriedReason(p, mode).Some? {
      Translated(p, mode);
    } else {
      Untranslated(p, mode);
    }
  }
}
