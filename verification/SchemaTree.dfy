/** Input schemas as values: what registration makes of a schema. */
module SchemaTree {
  import opened Text

  /** JSON-shaped Go values: map[string]any, []any, []string, a string, nil,
      and any other scalar. */
  datatype Tree = TMap(m: map<string, Tree>) | TSlice(items: seq<Tree>) | TStrings(strings: seq<string>)
                | TString(s: string) | TNil | TOther(text: string)

  datatype SchemaError = InvalidRequired | DuplicateRequired

  const DESCRIPTION := "Required: concise user-visible reason why ChatGPT is invoking this tool now"
  const REASON := TMap(map["type" := TString("string"), "description" := TString(DESCRIPTION)])

  /** ObjectSchema(nil, nil) */
  const EMPTY_OBJECT := TMap(map["type" := TString("object"), "properties" := TMap(map[]),
                                 "additionalProperties" := TOther("false")])

  function Wrap(ss: seq<string>): seq<Tree> {
    seq(|ss|, i requires 0 <= i < |ss| => TString(ss[i]))
  }

  /** The entries of a required list, read in order: the first entry that is
      not a string, or repeats an earlier one, decides the error. */
  function Entries(items: seq<Tree>): Result<seq<string>, SchemaError> {
    if items == [] then Ok([])
    else
      match Entries(items[..|items| - 1])
      case Err(e) => Err(e)
      case Ok(front) =>
        var last := items[|items| - 1];
        if !last.TString? then Err(InvalidRequired)
        else if last.s in front then Err(DuplicateRequired)
        else Ok(front + [last.s])
  }

  function WithReason(names: seq<string>): seq<string> {
    if "reason" in names then names else names + ["reason"]
  }

  /** appendReasonRequired */
  function AppendReasonRequired(required: Tree): Result<Tree, SchemaError> {
    match required
    case TStrings(ss) =>
      (match Entries(Wrap(ss)) case Ok(names) => Ok(TStrings(WithReason(names))) case Err(e) => Err(e))
    case TSlice(items) =>
      (match Entries(items) case Ok(names) => Ok(TSlice(Wrap(WithReason(names)))) case Err(e) => Err(e))
    case _ => Err(InvalidRequired)
  }

  function Properties(m: map<string, Tree>): map<string, Tree> {
    if "properties" in m && m["properties"].TMap? then m["properties"].m else map[]
  }

  function WithReasonProperty(m: map<string, Tree>): map<string, Tree> {
    m["properties" := TMap(Properties(m)["reason" := REASON])]
  }

  /** requireReasonSchema */
  function Normalised(t: Tree): Result<Tree, SchemaError>
    requires t.TMap?
  {
    var m := WithReasonProperty(t.m);
    if "required" !in t.m then Ok(TMap(m["required" := TStrings(["reason"])]))
    else
      match AppendReasonRequired(t.m["required"])
      case Ok(required) => Ok(TMap(m["required" := required]))
      case Err(e) => Err(e)
  }

  // -------------------------------------------------------- main theorems

  predicate Distinct(ss: seq<string>) {
    forall i, j | 0 <= i < j < |ss| :: ss[i] != ss[j]
  }

  /** The names a required value lists, if it is a list of strings. */
  function Names(required: Tree): Option<seq<string>> {
    match required
    case TStrings(ss) => Some(ss)
    case TSlice(items) => if forall x | x in items :: x.TString? then Some(Unwrap(items)) else None
    case _ => None
  }

  function Unwrap(items: seq<Tree>): seq<string>
    requires forall x | x in items :: x.TString?
  {
    seq(|items|, i requires 0 <= i < |items| => (assert items[i] in items; items[i].s))
  }

  /** A schema fit to be stored: a string property "reason", and a required
      list without repetition that has "reason" in it. */
  ghost predicate Good(t: Tree) {
    && t.TMap?
    && "properties" in t.m && t.m["properties"].TMap?
    && "reason" in t.m["properties"].m && t.m["properties"].m["reason"] == REASON
    && "required" in t.m && Names(t.m["required"]).Some?
    && var names := Names(t.m["required"]).value; Distinct(names) && "reason" in names
  }

  lemma {:induction false} EntriesExact(items: seq<Tree>)
    ensures Entries(items).Ok? <==> Names(TSlice(items)).Some? && Distinct(Names(TSlice(items)).value)
    ensures Entries(items).Ok? ==> Entries(items).value == Names(TSlice(items)).value && Wrap(Entries(items).value) == items
  {
    if items != [] {
      var front, last := items[..|items| - 1], items[|items| - 1];
      EntriesExact(front);
      NamesOfFront(items);
      if Names(TSlice(items)).Some? { DistinctOneMore(Unwrap(front), last.s); }
      if Entries(items).Ok? { WrapOneMore(Entries(front).value, last.s); }
    }
  }

  lemma NamesOfFront(items: seq<Tree>)
    requires items != []
    ensures var front, last := items[..|items| - 1], items[|items| - 1];
            Names(TSlice(items)) ==
            if Names(TSlice(front)).Some? && last.TString? then Some(Names(TSlice(front)).value + [last.s]) else None
  {
    var front, last := items[..|items| - 1], items[|items| - 1];
    assert items == front + [last];
    assert last in items && forall x | x in front :: x in items;
    if forall x | x in items :: x.TString? {
      assert Unwrap(items) == Unwrap(front) + [last.s];
    }
  }

  lemma WrapOneMore(ss: seq<string>, s: string)
    ensures Wrap(ss + [s]) == Wrap(ss) + [TString(s)]
  {
  }

  lemma DistinctOneMore(names: seq<string>, name: string)
    ensures Distinct(names + [name]) <==> Distinct(names) && name !in names
  {
    var all := names + [name];
    if Distinct(all) {
      forall i | 0 <= i < |names| ensures names[i] != name { assert all[i] != all[|names|]; }
      forall i, j | 0 <= i < j < |names| ensures names[i] != names[j] { assert all[i] != all[j]; }
    }
  }

  lemma WrappedNames(ss: seq<string>)
    ensures Names(TSlice(Wrap(ss))) == Some(ss)
  {
    assert Unwrap(Wrap(ss)) == ss;
  }

  lemma EntriesOfWrap(ss: seq<string>)
    ensures Distinct(ss) ==> Entries(Wrap(ss)) == Ok(ss)
    ensures Entries(Wrap(ss)).Ok? <==> Distinct(ss)
  {
    WrappedNames(ss);
    EntriesExact(Wrap(ss));
  }

  /** appendReasonRequired succeeds exactly on lists of distinct strings, keeps
      their entries in order and adds "reason" only if it was missing. */
  lemma AppendExact(required: Tree)
    ensures AppendReasonRequired(required).Ok? <==> Names(required).Some? && Distinct(Names(required).value)
    ensures AppendReasonRequired(required).Ok? ==>
              Names(AppendReasonRequired(required).value) == Some(WithReason(Names(required).value))
  {
    match required
    case TStrings(ss) => EntriesOfWrap(ss);
    case TSlice(items) =>
      EntriesExact(items);
      if Entries(items).Ok? { WrappedNames(WithReason(Entries(items).value)); }
    case _ =>
  }

  lemma WithReasonDistinct(names: seq<string>)
    requires Distinct(names)
    ensures Distinct(WithReason(names)) && "reason" in WithReason(names)
  {
    if "reason" !in names {
      var all := names + ["reason"];
      assert all[|names|] == "reason";
      assert forall i | 0 <= i < |names| :: all[i] == names[i] && names[i] in names;
    }
  }

  /** A schema is accepted exactly when its required value, if it has one, is a
      list of distinct strings.  The result is fit to be stored, keeps the
      caller's entries in order, and is otherwise the caller's schema. */
  lemma NormalisedExact(t: Tree)
    requires t.TMap?
    ensures Normalised(t).Ok? <==>
              ("required" in t.m ==> Names(t.m["required"]).Some? && Distinct(Names(t.m["required"]).value))
    ensures Normalised(t).Ok? ==>
              var r := Normalised(t).value;
              && Good(r)
              && Names(r.m["required"]).value ==
                   WithReason(if "required" in t.m then Names(t.m["required"]).value else [])
              && r.m["properties"].m == Properties(t.m)["reason" := REASON]
              && r.m - {"properties", "required"} == t.m - {"properties", "required"}
  {
    if "required" in t.m {
      AppendExact(t.m["required"]);
      if Normalised(t).Ok? { WithReasonDistinct(Names(t.m["required"]).value); }
    } else {
      assert WithReason([]) == ["reason"];
      assert Names(TStrings(["reason"])) == Some(["reason"]);
    }
  }

  /** What is stored, part by part: the property "reason" is a described
      string, the other properties are the caller's; the required list is the
      caller's, of the same Go type, with "reason" at its end unless it was in
      it; and every other part is the caller's. */
  lemma StoredExactly(t: Tree)
    requires t.TMap? && Normalised(t).Ok?
    ensures Normalised(t).value.TMap? && "properties" in Normalised(t).value.m && Normalised(t).value.m["properties"].TMap?
    ensures var r := Normalised(t).value.m;
            var ps := r["properties"].m;
            && "reason" in ps
            && ps["reason"] == TMap(map["type" := TString("string"),
                 "description" := TString("Required: concise user-visible reason why ChatGPT is invoking this tool now")])
            && (forall k | k != "reason" :: k in ps <==>
                  "properties" in t.m && t.m["properties"].TMap? && k in t.m["properties"].m)
            && (forall k | k != "reason" && k in ps :: ps[k] == t.m["properties"].m[k])
            && (forall k | k != "properties" && k != "required" :: (k in r <==> k in t.m) && (k in r ==> r[k] == t.m[k]))
            && "required" in r
            && ("required" !in t.m ==> r["required"] == TStrings(["reason"]))
            && ("required" in t.m ==>
                  match t.m["required"]
                  case TStrings(ss) => r["required"] == TStrings(if "reason" in ss then ss else ss + ["reason"])
                  case TSlice(items) => r["required"] == TSlice(if TString("reason") in items then items else items + [TString("reason")])
                  case _ => false)
  {
    if "required" in t.m {
      match t.m["required"]
      case TStrings(ss) => EntriesOfWrap(ss);
      case TSlice(items) =>
        EntriesExact(items);
        WrappedMember(Entries(items).value, "reason");
        WrapOneMore(Entries(items).value, "reason");
      case _ =>
    }
  }

  lemma WrappedMember(names: seq<string>, name: string)
    ensures TString(name) in Wrap(names) <==> name in names
  {
    if name in names {
      var i :| 0 <= i < |names| && names[i] == name;
      assert Wrap(names)[i] == TString(name);
    }
  }

  /** A refused schema has a required value that is no list, or the first entry
      that is not a string or repeats an earlier one tells the error. */
  lemma RefusedExactly(t: Tree)
    requires t.TMap? && Normalised(t).Err?
    ensures "required" in t.m
    ensures match t.m["required"]
            case TStrings(ss) =>
              && Normalised(t) == Err(DuplicateRequired)
              && exists i, j | 0 <= i < j < |ss| :: ss[i] == ss[j]
            case TSlice(items) =>
              exists n | 0 <= n < |items| ::
                && (forall i | 0 <= i < n :: items[i].TString?)
                && (forall i, j | 0 <= i < j < n :: items[i] != items[j])
                && (if items[n].TString?
                    then items[n] in items[..n] && Normalised(t) == Err(DuplicateRequired)
                    else Normalised(t) == Err(InvalidRequired))
            case _ => Normalised(t) == Err(InvalidRequired)
  {
    match t.m["required"]
    case TStrings(ss) =>
      EntriesOfWrap(ss);
      var n := FirstBad(Wrap(ss));
      assert Wrap(ss)[n].TString?;
    case TSlice(items) =>
      var n := FirstBad(items);
    case _ =>
  }

  lemma {:induction false} FirstBad(items: seq<Tree>) returns (n: nat)
    requires Entries(items).Err?
    ensures n < |items|
    ensures forall i | 0 <= i < n :: items[i].TString?
    ensures forall i, j | 0 <= i < j < n :: items[i] != items[j]
    ensures if items[n].TString? then items[n] in items[..n] && Entries(items) == Err(DuplicateRequired)
            else Entries(items) == Err(InvalidRequired)
  {
    var front, last := items[..|items| - 1], items[|items| - 1];
    if Entries(front).Err? {
      n := FirstBad(front);
      assert front[..n] == items[..n];
      assert forall i | 0 <= i <= n :: front[i] == items[i];
    } else {
      n := |items| - 1;
      EntriesExact(front);
      assert forall i | 0 <= i < n :: front[i] == items[i] && front[i] in front;
      DistinctItems(front);
      if last.TString? {
        WrappedMember(Entries(front).value, last.s);
      }
    }
  }

  lemma DistinctItems(items: seq<Tree>)
    requires Names(TSlice(items)).Some? && Distinct(Names(TSlice(items)).value)
    ensures forall i, j | 0 <= i < j < |items| :: items[i] != items[j]
  {
    var names := Names(TSlice(items)).value;
    forall i, j | 0 <= i < j < |items| ensures items[i] != items[j] {
      assert items[i] in items && items[j] in items && names[i] != names[j];
    }
  }

  /** A tool registered without a schema takes an object with one property. */
  lemma NoSchemaStored()
    ensures Normalised(EMPTY_OBJECT).Ok?
    ensures Normalised(EMPTY_OBJECT).value.m.Keys == {"type", "properties", "additionalProperties", "required"}
    ensures var r := Normalised(EMPTY_OBJECT).value.m;
            && r["type"] == TString("object") && r["additionalProperties"] == TOther("false")
            && r["required"] == TStrings(["reason"]) && r["properties"].TMap? && r["properties"].m.Keys == {"reason"}
  {
    StoredExactly(EMPTY_OBJECT);
  }

  /** Normalising twice is normalising once. */
  lemma NormalisedTwice(t: Tree)
    requires t.TMap? && Normalised(t).Ok?
    ensures Normalised(t).value.TMap? && Normalised(Normalised(t).value) == Normalised(t)
  {
    NormalisedExact(t);
    var r := Normalised(t).value;
    NormalisedExact(r);
    assert r.m["properties"].m["reason" := REASON] == r.m["properties"].m;
    assert AppendReasonRequired(r.m["required"]) == Ok(r.m["required"]) by { AppendGood(r.m["required"]); }
    assert r.m["properties" := r.m["properties"]]["required" := r.m["required"]] == r.m;
  }

  lemma AppendGood(required: Tree)
    requires Names(required).Some? && Distinct(Names(required).value) && "reason" in Names(required).value
    ensures AppendReasonRequired(required) == Ok(required)
  {
    match required
    case TStrings(ss) => EntriesOfWrap(ss);
    case TSlice(items) => EntriesExact(items);
  }
}
