/** Schema registration on the heap: maps and slices are shared by reference,
    so what is stored must be a copy nobody else holds. */
module Schema {
  import opened Text
  import opened SchemaTree

  class MapNode {
    var entries: map<string, Value>
    ghost var Repr: set<object>     // of a copy: all its maps and slices

    constructor ()
      ensures entries == map[] && Repr == {this}
    {
      entries, Repr := map[], {this};
    }
  }

  class SliceNode {
    var items: seq<Value>
    ghost var Repr: set<object>

    constructor ()
      ensures items == [] && Repr == {this}
    {
      items, Repr := [], {this};
    }
  }

  class StringsNode {
    var items: seq<string>

    constructor (items: seq<string>)
      ensures this.items == items
    {
      this.items := items;
    }
  }

  /** A Go value of type any. */
  datatype Value = Map(m: MapNode) | Slice(a: SliceNode) | Strings(l: StringsNode)
                 | Str(s: string) | Nil | Other(text: string)

  ghost function Node(v: Value): set<object> {
    match v case Map(m) => {m} case Slice(a) => {a} case Strings(l) => {l} case _ => {}
  }

  /** v stands for the tree t, using only objects of repr; they may be shared,
      as a caller's schema may be. */
  ghost predicate Denotes(v: Value, t: Tree, repr: set<object>)
    reads repr
    decreases t
  {
    match t
    case TMap(tm) =>
      && v.Map? && v.m in repr && v.m.entries.Keys == tm.Keys
      && forall k | k in tm :: Denotes(v.m.entries[k], tm[k], repr)
    case TSlice(ts) =>
      && v.Slice? && v.a in repr && |v.a.items| == |ts|
      && forall i | 0 <= i < |ts| :: Denotes(v.a.items[i], ts[i], repr)
    case TStrings(ss) => v.Strings? && v.l in repr && v.l.items == ss
    case TString(s) => v == Str(s)
    case TNil => v.Nil?
    case TOther(text) => v == Other(text)
  }

  ghost function Foot(v: Value): set<object>
    reads Node(v)
  {
    match v case Map(m) => m.Repr case Slice(a) => a.Repr case Strings(l) => {l} case _ => {}
  }

  /** v stands for t and is a tree on the heap: no object occurs in it twice. */
  ghost predicate Owned(v: Value, t: Tree)
    reads Node(v), Foot(v)
    decreases t
  {
    match t
    case TMap(tm) =>
      && v.Map? && v.m in v.m.Repr && v.m.entries.Keys == tm.Keys
      && (forall k | k in tm ::
            && Node(v.m.entries[k]) <= v.m.Repr - {v.m} && Foot(v.m.entries[k]) <= v.m.Repr - {v.m}
            && Owned(v.m.entries[k], tm[k]))
      && (forall j, k | j in tm && k in tm && j != k :: Foot(v.m.entries[j]) !! Foot(v.m.entries[k]))
    case TSlice(ts) =>
      && v.Slice? && v.a in v.a.Repr && |v.a.items| == |ts|
      && (forall i | 0 <= i < |ts| ::
            && Node(v.a.items[i]) <= v.a.Repr - {v.a} && Foot(v.a.items[i]) <= v.a.Repr - {v.a}
            && Owned(v.a.items[i], ts[i]))
      && (forall i, j | 0 <= i < j < |ts| :: Foot(v.a.items[i]) !! Foot(v.a.items[j]))
    case TStrings(ss) => v.Strings? && v.l.items == ss
    case TString(s) => v == Str(s)
    case TNil => v.Nil?
    case TOther(text) => v == Other(text)
  }

  /** cloneSchemaValue.  Nothing allocated before is modified, and nothing the
      copy is made of existed before. */
  method CloneSchemaValue(v: Value, ghost t: Tree, ghost repr: set<object>) returns (r: Value)
    requires Denotes(v, t, repr)
    ensures Owned(r, t) && fresh(Foot(r)) && Node(r) <= Foot(r)
    decreases t, 2
  {
    match v
    case Map(m) => r := CloneMap(m, t, repr);
    case Slice(a) => r := CloneSlice(a, t, repr);
    case Strings(l) =>
      var copy := new StringsNode(l.items);
      r := Strings(copy);
    case _ => r := v;
  }

  method CloneMap(m: MapNode, ghost t: Tree, ghost repr: set<object>) returns (r: Value)
    requires Denotes(Map(m), t, repr)
    ensures Owned(r, t) && fresh(Foot(r)) && Node(r) <= Foot(r)
    decreases t, 1
  {
    var out := new MapNode();
    var todo := m.entries.Keys;
    ghost var done: map<string, Tree> := map[];
    while todo != {}
      invariant Denotes(Map(m), t, repr) && todo <= t.m.Keys
      invariant done.Keys == t.m.Keys - todo && forall k | k in done :: done[k] == t.m[k]
      invariant fresh(out.Repr) && Owned(Map(out), TMap(done))
      decreases todo
    {
      var k :| k in todo;
      todo := todo - {k};
      CloneEntry(m, k, out, done, t, repr);
      done := done[k := t.m[k]];
    }
    assert done == t.m;
    r := Map(out);
  }

  method CloneEntry(m: MapNode, key: string, out: MapNode, ghost done: map<string, Tree>, ghost t: Tree, ghost repr: set<object>)
    requires Denotes(Map(m), t, repr) && key in t.m
    requires Owned(Map(out), TMap(done)) && out !in repr
    modifies out
    ensures Owned(Map(out), TMap(done[key := t.m[key]])) && fresh(out.Repr - old(out.Repr))
    decreases t, 0
  {
    var nested := CloneSchemaValue(m.entries[key], t.m[key], repr);
    AddEntry(out, done, key, nested, t.m[key]);
  }

  /** out[key] = value, for a value nothing else refers to. */
  method AddEntry(out: MapNode, ghost tm: map<string, Tree>, key: string, value: Value, ghost t: Tree)
    requires Owned(Map(out), TMap(tm)) && Owned(value, t) && Node(value) <= Foot(value)
    requires Foot(value) !! out.Repr
    modifies out
    ensures Owned(Map(out), TMap(tm[key := t]))
    ensures out.Repr == old(out.Repr + Foot(value)) && out.entries == old(out.entries)[key := value]
  {
    out.entries := out.entries[key := value];
    out.Repr := out.Repr + Foot(value);
  }

  method CloneSlice(a: SliceNode, ghost t: Tree, ghost repr: set<object>) returns (r: Value)
    requires Denotes(Slice(a), t, repr)
    ensures Owned(r, t) && fresh(Foot(r)) && Node(r) <= Foot(r)
    decreases t, 1
  {
    var out := new SliceNode();
    var i := 0;
    while i < |a.items|
      invariant Denotes(Slice(a), t, repr) && 0 <= i <= |t.items|
      invariant fresh(out.Repr) && Owned(Slice(out), TSlice(t.items[..i]))
    {
      CloneItem(a, i, out, t, repr);
      i := i + 1;
    }
    assert t.items[..|t.items|] == t.items;
    r := Slice(out);
  }

  method CloneItem(a: SliceNode, i: nat, out: SliceNode, ghost t: Tree, ghost repr: set<object>)
    requires Denotes(Slice(a), t, repr) && i < |t.items|
    requires Owned(Slice(out), TSlice(t.items[..i])) && out !in repr
    modifies out
    ensures Owned(Slice(out), TSlice(t.items[..i + 1])) && fresh(out.Repr - old(out.Repr))
    decreases t, 0
  {
    var nested := CloneSchemaValue(a.items[i], t.items[i], repr);
    AddItem(out, t.items[..i], nested, t.items[i]);
    assert t.items[..i + 1] == t.items[..i] + [t.items[i]];
  }

  method AddItem(out: SliceNode, ghost ts: seq<Tree>, value: Value, ghost t: Tree)
    requires Owned(Slice(out), TSlice(ts)) && Owned(value, t) && Node(value) <= Foot(value)
    requires Foot(value) !! out.Repr
    modifies out
    ensures Owned(Slice(out), TSlice(ts + [t]))
    ensures out.Repr == old(out.Repr + Foot(value)) && out.items == old(out.items) + [value]
  {
    out.items := out.items + [value];
    out.Repr := out.Repr + Foot(value);
  }

  /** String(reasonDescription) */
  method NewReason() returns (node: MapNode)
    ensures fresh(node) && node.Repr == {node} && Owned(Map(node), REASON)
  {
    node := new MapNode();
    node.entries := map["type" := Str("string"), "description" := Str(DESCRIPTION)];
  }

  /** The entry k of out stands for t, within out's objects. */
  ghost predicate Part(out: MapNode, k: string, t: Tree)
    reads out, out.Repr
  {
    && k in out.entries && Node(out.entries[k]) <= out.Repr - {out} && Foot(out.entries[k]) <= out.Repr - {out}
    && Owned(out.entries[k], t)
  }

  /** out stands for tm but for its "properties" entry, and shares nothing
      with the objects of hole. */
  ghost predicate OpenAt(out: MapNode, tm: map<string, Tree>, hole: set<object>)
    reads out, out.Repr
  {
    && out in out.Repr && out !in hole && out.entries.Keys == tm.Keys
    && (forall k | k in tm && k != "properties" ::
          && Node(out.entries[k]) <= out.Repr - {out} && Foot(out.entries[k]) <= out.Repr - {out}
          && Owned(out.entries[k], tm[k]) && Foot(out.entries[k]) !! hole)
    && (forall j, k | j in tm && k in tm && j != k && j != "properties" && k != "properties" ::
          Foot(out.entries[j]) !! Foot(out.entries[k]))
  }

  method PropertiesOf(out: MapNode, ghost tm: map<string, Tree>) returns (props: MapNode)
    requires Owned(Map(out), TMap(tm))
    ensures Owned(Map(props), TMap(Properties(tm))) && OpenAt(out, tm, props.Repr)
    ensures props.Repr <= out.Repr || fresh(props.Repr)
  {
    if "properties" in out.entries && out.entries["properties"].Map? {
      props := out.entries["properties"].m;
    } else {
      props := new MapNode();
    }
  }

  /** props["reason"] = reason, seen from the copy props belongs to. */
  method WriteReason(props: MapNode, ghost ptm: map<string, Tree>, reason: MapNode, ghost out: MapNode, ghost tm: map<string, Tree>)
    requires Owned(Map(props), TMap(ptm)) && OpenAt(out, tm, props.Repr)
    requires Owned(Map(reason), REASON) && reason.Repr == {reason} && reason !in props.Repr && reason !in out.Repr
    modifies props
    ensures Owned(Map(props), TMap(ptm["reason" := REASON])) && OpenAt(out, tm, props.Repr)
    ensures out.Repr == old(out.Repr) && props.Repr == old(props.Repr) + {reason}
  {
    AddEntry(props, ptm, "reason", Map(reason), REASON);
  }

  /** The reason property, written into the copy's own properties map. */
  method SetReason(out: MapNode, ghost tm: map<string, Tree>)
    requires Owned(Map(out), TMap(tm))
    modifies out.Repr
    ensures Owned(Map(out), TMap(WithReasonProperty(tm)))
    ensures fresh(out.Repr - old(out.Repr))
  {
    var props := PropertiesOf(out, tm);
    Install(props, out, tm);
  }

  method Install(props: MapNode, out: MapNode, ghost tm: map<string, Tree>)
    requires Owned(Map(props), TMap(Properties(tm))) && OpenAt(out, tm, props.Repr)
    modifies props, out
    ensures Owned(Map(out), TMap(WithReasonProperty(tm)))
    ensures fresh(out.Repr - old(out.Repr) - old(props.Repr))
  {
    var reason := NewReason();
    WriteReason(props, Properties(tm), reason, out, tm);
    Attach(out, tm, props, Properties(tm)["reason" := REASON]);
  }

  /** out["properties"] = props, where props may be that entry already. */
  method Attach(out: MapNode, ghost tm: map<string, Tree>, props: MapNode, ghost ptm: map<string, Tree>)
    requires OpenAt(out, tm, props.Repr) && Owned(Map(props), TMap(ptm))
    modifies out
    ensures Owned(Map(out), TMap(tm["properties" := TMap(ptm)])) && out.Repr == old(out.Repr) + old(props.Repr)
  {
    Point(out, tm, props, ptm);
    Attached(out, tm, props, ptm);
  }

  /** The assignment leaves every other entry standing for what it did. */
  method Point(out: MapNode, ghost tm: map<string, Tree>, props: MapNode, ghost ptm: map<string, Tree>)
    requires OpenAt(out, tm, props.Repr) && Owned(Map(props), TMap(ptm))
    modifies out
    ensures out.entries == old(out.entries)["properties" := Map(props)] && out.Repr == old(out.Repr) + old(props.Repr)
    ensures Owned(Map(props), TMap(ptm)) && props.Repr == old(props.Repr)
    ensures forall k {:trigger Part(out, k, tm[k])} | k in tm && k != "properties" ::
              Part(out, k, tm[k]) && Foot(out.entries[k]) == old(Foot(out.entries[k]))
  {
    out.entries := out.entries["properties" := Map(props)];
    out.Repr := out.Repr + props.Repr;
  }

  /** Each entry in place and none sharing with another, the map is owned. */
  lemma Attached(out: MapNode, tm: map<string, Tree>, props: MapNode, ptm: map<string, Tree>)
    requires out in out.Repr && out !in props.Repr && props.Repr <= out.Repr && props in props.Repr
    requires out.entries.Keys == tm.Keys + {"properties"} && out.entries["properties"] == Map(props)
    requires Owned(Map(props), TMap(ptm))
    requires forall k {:trigger Part(out, k, tm[k])} | k in tm && k != "properties" ::
               Part(out, k, tm[k]) && Foot(out.entries[k]) !! props.Repr
    requires forall j, k | j in tm && k in tm && j != k && j != "properties" && k != "properties" ::
               Foot(out.entries[j]) !! Foot(out.entries[k])
    ensures Owned(Map(out), TMap(tm["properties" := TMap(ptm)]))
  {
    var tm' := tm["properties" := TMap(ptm)];
    forall k | k in tm' ensures Part(out, k, tm'[k]) {
      if k == "properties" { assert tm'[k] == TMap(ptm); } else { assert tm'[k] == tm[k]; }
    }
    forall j, k | j in tm' && k in tm' && j != k ensures Foot(out.entries[j]) !! Foot(out.entries[k]) {
      assert j in tm || k in tm;
    }
  }

  // ------------------------------------------------------- required list

  /** appendReasonRequired: always a new slice. */
  method AppendReason(v: Value, ghost t: Tree) returns (r: Result<Value, SchemaError>)
    requires Owned(v, t)
    ensures match AppendReasonRequired(t)
            case Ok(t') => r.Ok? && Owned(r.value, t') && fresh(Foot(r.value)) && Node(r.value) <= Foot(r.value)
            case Err(e) => r == Err(e)
  {
    match v {
      case Strings(l) =>
        var names := DistinctNames(Wrapped(l.items), Wrap(l.items));
        if names.Err? {
          return Err(names.error);
        }
        assert names.value == l.items by { EntriesOfWrap(l.items); }
        var out := new StringsNode(if "reason" in names.value then names.value else names.value + ["reason"]);
        return Ok(Strings(out));
      case Slice(a) =>
        var names := DistinctNames(a.items, t.items);
        if names.Err? {
          return Err(names.error);
        }
        var out := new SliceNode();
        out.items := Wrapped(if "reason" in names.value then names.value else names.value + ["reason"]);
        return Ok(Slice(out));
      case _ =>
        return Err(InvalidRequired);
    }
  }

  function Wrapped(ss: seq<string>): seq<Value> {
    seq(|ss|, i requires 0 <= i < |ss| => Str(ss[i]))
  }

  /** The loop that collects seen names and stops at the first bad entry. */
  method DistinctNames(items: seq<Value>, ghost ts: seq<Tree>) returns (r: Result<seq<string>, SchemaError>)
    requires |items| == |ts| && forall i | 0 <= i < |ts| :: Owned(items[i], ts[i])
    ensures r == Entries(ts)
  {
    var seen: seq<string> := [];
    assert ts[..|ts|] == ts;
    for i := 0 to |items|
      invariant Entries(ts[..i]) == Ok(seen)
    {
      assert ts[..i + 1][..i] == ts[..i];
      if !items[i].Str? {
        EntriesStop(ts, i);
        return Err(InvalidRequired);
      }
      if items[i].s in seen {
        EntriesStop(ts, i);
        return Err(DuplicateRequired);
      }
      seen := seen + [items[i].s];
    }
    return Ok(seen);
  }

  /** An error found at an entry is the error of the whole list. */
  lemma {:induction false} EntriesStop(ts: seq<Tree>, i: nat)
    requires i < |ts| && Entries(ts[..i + 1]).Err?
    ensures Entries(ts) == Entries(ts[..i + 1])
  {
    if i + 1 == |ts| {
      assert ts[..i + 1] == ts;
    } else {
      var front := ts[..|ts| - 1];
      assert front[..i + 1] == ts[..i + 1];
      EntriesStop(front, i);
    }
  }

  method SetRequired(out: MapNode, ghost tm: map<string, Tree>) returns (err: Option<SchemaError>)
    requires Owned(Map(out), TMap(tm))
    modifies out
    ensures fresh(out.Repr - old(out.Repr))
    ensures if "required" !in tm then err.None? && Owned(Map(out), TMap(tm["required" := TStrings(["reason"])]))
            else match AppendReasonRequired(tm["required"])
                 case Ok(t') => err.None? && Owned(Map(out), TMap(tm["required" := t']))
                 case Err(e) => err == Some(e)
  {
    if "required" !in out.entries {
      var required := new StringsNode(["reason"]);
      AddEntry(out, tm, "required", Strings(required), TStrings(["reason"]));
      return None;
    }
    var required := AppendReason(out.entries["required"], tm["required"]);
    if required.Err? {
      return Some(required.error);
    }
    AddEntry(out, tm, "required", required.value, AppendReasonRequired(tm["required"]).value);
    return None;
  }

  /** requireReasonSchema: the caller's schema is left as it was, and the
      result is the normalised schema in objects of its own. */
  method RequireReasonSchema(s: MapNode, ghost t: Tree, ghost repr: set<object>) returns (r: Result<MapNode, SchemaError>)
    requires Denotes(Map(s), t, repr)
    ensures match Normalised(t)
            case Ok(t') => r.Ok? && Owned(Map(r.value), t') && fresh(r.value.Repr)
            case Err(e) => r == Err(e)
  {
    var copy := CloneSchemaValue(Map(s), t, repr);
    var err := NormaliseCopy(copy.m, t);
    if err.Some? {
      return Err(err.value);
    }
    return Ok(copy.m);
  }

  method NormaliseCopy(out: MapNode, ghost t: Tree) returns (err: Option<SchemaError>)
    requires Owned(Map(out), t)
    modifies out.Repr
    ensures fresh(out.Repr - old(out.Repr))
    ensures match Normalised(t)
            case Ok(t') => err.None? && Owned(Map(out), t')
            case Err(e) => err == Some(e)
  {
    SetReason(out, t.m);
    err := SetRequired(out, WithReasonProperty(t.m));
  }
}
